/** Four-level page tables (kernel/src/VMM/vmm.c; Intel SDM volume 3A, section 4.5).

    `PageTree` is the meaning of the tables: which table a path of indices reaches, and which
    entry a page number looks up.  Words are integers here: `x & 1` is x % 2, the address mask
    is division and remainder by powers of two, and OR of disjoint fields is addition. */
module PageTree {
  import opened Words

  /** Physical memory that holds tables: frame number -> 512 entries. */
  type Memory = map<nat, seq<u64>>

  const ENTRIES: nat := 512

  const FRAME_LIMIT: nat := 0x10_0000_0000

  predicate Zeroed(table: seq<u64>) {
    |table| == ENTRIES && forall i :: 0 <= i < ENTRIES ==> table[i] == 0
  }

  predicate Present(e: u64) {
    e % 2 == 1
  }

  lemma Split12(q: nat, r: nat)
    requires r < 0x1000
    ensures (q * 0x1000 + r) / 0x1000 == q && (q * 0x1000 + r) % 0x1000 == r
  {
  }

  lemma Split36(q: nat, r: nat)
    requires r < FRAME_LIMIT
    ensures (q * FRAME_LIMIT + r) / FRAME_LIMIT == q && (q * FRAME_LIMIT + r) % FRAME_LIMIT == r
  {
  }

  lemma Split52(q: nat, r: nat)
    requires r < 0x10_0000_0000_0000
    ensures (q * 0x10_0000_0000_0000 + r) / 0x10_0000_0000_0000 == q
  {
  }

  /** Bits 12-47 of an entry or a physical address, as a frame number. */
  function FrameOf(e: u64): (f: nat)
    ensures f < FRAME_LIMIT
  {
    e / 0x1000 % FRAME_LIMIT
  }

  function LinkEntry(f: nat): (e: u64)
    requires f < FRAME_LIMIT
    ensures Present(e) && FrameOf(e) == f
  {
    Split12(f, 3);
    f * 0x1000 + 3
  }

  /** The attribute bits an entry carries: 52-63 above 0-11. */
  function FlagsOf(e: u64): nat {
    e / 0x10_0000_0000_0000 * 0x1000 + e % 0x1000
  }

  /** An entry is its top 12 bits, its frame and its low 12 bits. */
  lemma EntryFields(high: nat, f: nat, low: nat)
    requires high < 0x1000 && f < FRAME_LIMIT && low < 0x1000
    ensures var e := high * 0x10_0000_0000_0000 + f * 0x1000 + low;
      && e < 0x1_0000_0000_0000_0000
      && FrameOf(e) == f && e % 0x1000 == low && FlagsOf(e) == high * 0x1000 + low
  {
    var e := high * 0x10_0000_0000_0000 + f * 0x1000 + low;
    assert e == (high * 0x100_0000_0000 + f) * 0x1000 + low;
    Split12(high * 0x100_0000_0000 + f, low);
    Split36(high * 16, f);
    Split52(high, f * 0x1000 + low);
  }

  lemma LowBits(e: nat)
    ensures e % 0x1000 % 4 == e % 4
  {
  }

  lemma LowTwoBits(e: nat)
    ensures e % 2 == e % 4 % 2 && e / 2 % 2 == e % 4 / 2
  {
  }

  lemma DropLowTwoBits(high: nat, low: nat)
    ensures (high * 0x1000 + low) / 4 == high * 0x400 + low / 4
  {
  }

  /** The leaf entry KiMMap stores: the frame of `paddr`, the attribute bits 0-11 and 52-63,
      and the present and writable bits. */
  function LeafEntry(paddr: u64, attributes: u64): (e: u64)
    ensures Present(e) && e / 2 % 2 == 1 && FrameOf(e) == FrameOf(paddr)
    ensures FlagsOf(e) / 4 == FlagsOf(attributes) / 4
  {
    var high, low := attributes / 0x10_0000_0000_0000, attributes % 0x1000 / 4 * 4 + 3;
    EntryFields(high, FrameOf(paddr), low);
    var e := high * 0x10_0000_0000_0000 + FrameOf(paddr) * 0x1000 + low;
    LowBits(e);
    LowTwoBits(e);
    DropLowTwoBits(high, low);
    DropLowTwoBits(high, attributes % 0x1000);
    e
  }

  /** Bits 12-47 of a virtual address, the part the walk looks at. */
  function Page(vaddr: u64): nat {
    FrameOf(vaddr)
  }

  /** The PML4, PDPT and PD indices of a page number. */
  function Path(n: nat): seq<nat> {
    [n / 512 / 512 / 512 % 512, n / 512 / 512 % 512, n / 512 % 512]
  }

  function Slot(n: nat): nat {
    n % 512
  }

  lemma SameQuotientAndRemainder(a: nat, b: nat)
    requires a / 512 == b / 512 && a % 512 == b % 512
    ensures a == b
  {
  }

  lemma TopIndex(n: nat)
    requires n < FRAME_LIMIT
    ensures n / 512 / 512 / 512 % 512 == n / 512 / 512 / 512
  {
  }

  lemma PathAndSlotDetermineThePage(a: nat, b: nat)
    requires a < FRAME_LIMIT && b < FRAME_LIMIT
    requires Path(a) == Path(b) && Slot(a) == Slot(b)
    ensures a == b
  {
    hide FRAME_LIMIT;
    TopIndex(a);
    TopIndex(b);
    assert Path(a)[0] == Path(b)[0] && Path(a)[1] == Path(b)[1] && Path(a)[2] == Path(b)[2];
    SameQuotientAndRemainder(a / 512 / 512, b / 512 / 512);
    SameQuotientAndRemainder(a / 512, b / 512);
    SameQuotientAndRemainder(a, b);
  }

  lemma QuotientOfLow36(y: nat)
    ensures y % FRAME_LIMIT / 512 == y / 512 % 0x800_0000
  {
  }

  lemma QuotientOfLow27(y: nat)
    ensures y % 0x800_0000 / 512 == y / 512 % 0x4_0000
  {
  }

  lemma QuotientOfLow18(y: nat)
    ensures y % 0x4_0000 / 512 == y / 512 % 512
  {
  }

  lemma Low9OfLow36(y: nat)
    ensures y % FRAME_LIMIT % 512 == y % 512
  {
  }

  lemma Low9OfLow27(y: nat)
    ensures y % 0x800_0000 % 512 == y % 512
  {
  }

  lemma Low9OfLow18(y: nat)
    ensures y % 0x4_0000 % 512 == y % 512
  {
  }

  /** The four shifts of KiMMap and KiUMap select the path and the slot of the page number. */
  lemma IndexSlices(vaddr: u64)
    ensures vaddr / 0x80_0000_0000 % 512 == Path(Page(vaddr))[0]
    ensures vaddr / 0x4000_0000 % 512 == Path(Page(vaddr))[1]
    ensures vaddr / 0x20_0000 % 512 == Path(Page(vaddr))[2]
    ensures vaddr / 0x1000 % 512 == Slot(Page(vaddr))
  {
    var y := vaddr / 0x1000;
    assert vaddr / 0x20_0000 == y / 512;
    assert vaddr / 0x4000_0000 == y / 512 / 512;
    assert vaddr / 0x80_0000_0000 == y / 512 / 512 / 512;
    Low9OfLow36(y);
    QuotientOfLow36(y);
    Low9OfLow27(y / 512);
    QuotientOfLow27(y / 512);
    Low9OfLow18(y / 512 / 512);
    QuotientOfLow18(y / 512 / 512);
  }

  /** Follows one entry of one table. */
  function Step(mem: Memory, t: nat, i: nat): Option<nat> {
    if t in mem && i < |mem[t]| && Present(mem[t][i]) then Some(FrameOf(mem[t][i])) else None
  }

  /** The table reached from the root through a path of indices. */
  function Node(mem: Memory, root: nat, path: seq<nat>): Option<nat> {
    if path == [] then Some(root)
    else
      var up := Node(mem, root, path[..|path| - 1]);
      if up.None? then None else Step(mem, up.value, path[|path| - 1])
  }

  /** What the hardware walk finds for page `n`: the present leaf entry, if any. */
  function Lookup(mem: Memory, root: nat, n: nat): Option<u64> {
    var t := Node(mem, root, Path(n));
    if t.Some? && t.value in mem && Slot(n) < |mem[t.value]| && Present(mem[t.value][Slot(n)])
    then Some(mem[t.value][Slot(n)]) else None
  }

  /** The finite map from page number to leaf entry that the tables stand for. */
  ghost function View(mem: Memory, root: nat): map<nat, u64> {
    map n: nat | n < FRAME_LIMIT && Lookup(mem, root, n).Some? :: Lookup(mem, root, n).value
  }

  ghost predicate IsTable(mem: Memory, root: nat, t: nat) {
    exists q: seq<nat> :: |q| <= 3 && Node(mem, root, q) == Some(t)
  }

  /** Every table is real memory and is reached by one path only. */
  ghost predicate IsTree(mem: Memory, root: nat) {
    && (forall q: seq<nat> :: |q| <= 3 && Node(mem, root, q).Some? ==>
          Node(mem, root, q).value in mem && |mem[Node(mem, root, q).value]| == ENTRIES)
    && (forall q: seq<nat>, r: seq<nat> ::
          |q| <= 3 && |r| <= 3 && Node(mem, root, q).Some? && Node(mem, root, q) == Node(mem, root, r) ==> q == r)
  }

  /** How many of the tables below level `k` of a path are absent. */
  function MissingFrom(mem: Memory, root: nat, path: seq<nat>, k: nat): nat
    requires |path| == 3 && k <= 3
    decreases 3 - k
  {
    if k == 3 then 0
    else if Node(mem, root, path[..k + 1]).None? then 3 - k
    else MissingFrom(mem, root, path, k + 1)
  }

  function Missing(mem: Memory, root: nat, n: nat): nat {
    MissingFrom(mem, root, Path(n), 0)
  }

  function Store(mem: Memory, t: nat, i: nat, e: u64): Memory
    requires t in mem && i < |mem[t]|
  {
    var row: seq<u64> := mem[t][i := e];
    mem[t := row]
  }

  /** An unused frame `f`, whatever it holds, and an absent entry `i` of the table at `path`. */
  ghost predicate CanLinkRaw(mem: Memory, root: nat, path: seq<nat>, i: nat, f: nat) {
    && IsTree(mem, root) && |path| < 3 && Node(mem, root, path).Some?
    && i < ENTRIES && Step(mem, Node(mem, root, path).value, i).None?
    && f < FRAME_LIMIT && f in mem && |mem[f]| == ENTRIES && !IsTable(mem, root, f)
  }

  ghost predicate CanLink(mem: Memory, root: nat, path: seq<nat>, i: nat, f: nat) {
    CanLinkRaw(mem, root, path, i, f) && Zeroed(mem[f])
  }

  ghost function Linked(mem: Memory, root: nat, path: seq<nat>, i: nat, f: nat): Memory
    requires CanLinkRaw(mem, root, path, i, f)
  {
    Store(mem, Node(mem, root, path).value, i, LinkEntry(f))
  }

  lemma NodeSnoc(mem: Memory, root: nat, q: seq<nat>, j: nat)
    ensures Node(mem, root, q + [j])
         == if Node(mem, root, q).None? then None else Step(mem, Node(mem, root, q).value, j)
  {
    assert (q + [j])[..|q|] == q;
  }

  lemma StepAfterStore(mem: Memory, t: nat, i: nat, e: u64, u: nat, j: nat)
    requires t in mem && i < |mem[t]|
    ensures Step(Store(mem, t, i, e), u, j)
         == if u == t && j == i then if Present(e) then Some(FrameOf(e)) else None else Step(mem, u, j)
  {
  }

  lemma ZeroTableHasNoSteps(mem: Memory, f: nat, j: nat)
    requires f in mem && Zeroed(mem[f])
    ensures Step(mem, f, j).None?
  {
  }

  /** Linking a zeroed frame that is not yet a table adds one path and changes no other. */
  lemma {:induction false} NodeAfterLink(mem: Memory, root: nat, path: seq<nat>, i: nat, f: nat, q: seq<nat>)
    requires CanLinkRaw(mem, root, path, i, f) && (Zeroed(mem[f]) || |path| == 2)
    requires |q| <= 3
    ensures var mem' := Linked(mem, root, path, i, f);
      Node(mem', root, q) == if q == path + [i] then Some(f) else Node(mem, root, q)
    decreases |q|
  {
    if q != [] {
      var t := Node(mem, root, path).value;
      var mem' := Linked(mem, root, path, i, f);
      var q0, j := q[..|q| - 1], q[|q| - 1];
      assert q == q0 + [j];
      NodeAfterLink(mem, root, path, i, f, q0);
      NodeSnoc(mem, root, q0, j);
      NodeSnoc(mem', root, q0, j);
      NodeSnoc(mem, root, path, i);
      if q0 == path + [i] {
        assert t != f;
        ZeroTableHasNoSteps(mem, f, j);
        StepAfterStore(mem, t, i, LinkEntry(f), f, j);
        assert |q| != |path + [i]|;
      } else if Node(mem, root, q0).Some? {
        var u := Node(mem, root, q0).value;
        StepAfterStore(mem, t, i, LinkEntry(f), u, j);
        assert q == path + [i] <==> q0 == path && j == i;
        assert u == t <==> q0 == path;
      } else {
        assert q0 != path;
      }
      hide *;
    }
  }

  lemma LookupAfterLink(mem: Memory, root: nat, path: seq<nat>, i: nat, f: nat, n: nat)
    requires CanLink(mem, root, path, i, f)
    ensures Lookup(Linked(mem, root, path, i, f), root, n) == Lookup(mem, root, n)
  {
    NodeAfterLink(mem, root, path, i, f, Path(n));
    if Path(n) == path + [i] {
      assert Path(n)[..2] == path;
      assert Node(mem, root, Path(n)).None?;
      assert mem[f][Slot(n)] == 0;
    } else {
      assert Path(n) != path;
    }
  }

  lemma NodesAfterLink(mem: Memory, root: nat, path: seq<nat>, i: nat, f: nat)
    requires CanLinkRaw(mem, root, path, i, f) && (Zeroed(mem[f]) || |path| == 2)
    ensures forall q: seq<nat> :: |q| <= 3 ==>
      Node(Linked(mem, root, path, i, f), root, q) == if q == path + [i] then Some(f) else Node(mem, root, q)
  {
    forall q: seq<nat> | |q| <= 3
      ensures Node(Linked(mem, root, path, i, f), root, q)
           == if q == path + [i] then Some(f) else Node(mem, root, q)
    {
      NodeAfterLink(mem, root, path, i, f, q);
    }
  }

  lemma TreeAfterLink(mem: Memory, root: nat, path: seq<nat>, i: nat, f: nat)
    requires CanLinkRaw(mem, root, path, i, f) && (Zeroed(mem[f]) || |path| == 2)
    ensures IsTree(Linked(mem, root, path, i, f), root)
  {
    hide Node, Step, LinkEntry, Zeroed;
    NodesAfterLink(mem, root, path, i, f);
  }

  lemma ViewAfterLink(mem: Memory, root: nat, path: seq<nat>, i: nat, f: nat)
    requires CanLink(mem, root, path, i, f)
    ensures View(Linked(mem, root, path, i, f), root) == View(mem, root)
  {
    hide CanLinkRaw, Linked, Lookup;
    forall n: nat
      ensures Lookup(Linked(mem, root, path, i, f), root, n) == Lookup(mem, root, n)
    {
      LookupAfterLink(mem, root, path, i, f, n);
    }
  }

  lemma {:induction false} NodeAfterLeaf(mem: Memory, root: nat, path: seq<nat>, i: nat, e: u64, q: seq<nat>)
    requires IsTree(mem, root) && |path| == 3 && Node(mem, root, path).Some? && i < ENTRIES && |q| <= 3
    ensures Node(Store(mem, Node(mem, root, path).value, i, e), root, q) == Node(mem, root, q)
    decreases |q|
  {
    if q != [] {
      var t := Node(mem, root, path).value;
      var mem' := Store(mem, t, i, e);
      var q0, j := q[..|q| - 1], q[|q| - 1];
      assert q == q0 + [j];
      NodeAfterLeaf(mem, root, path, i, e, q0);
      NodeSnoc(mem, root, q0, j);
      NodeSnoc(mem', root, q0, j);
      if Node(mem, root, q0).Some? {
        StepAfterStore(mem, t, i, e, Node(mem, root, q0).value, j);
        assert q0 != path;
      }
      hide *;
    }
  }

  lemma LookupAfterLeaf(mem: Memory, root: nat, n: nat, e: u64, m: nat)
    requires IsTree(mem, root) && n < FRAME_LIMIT && m < FRAME_LIMIT && Node(mem, root, Path(n)).Some?
    ensures Lookup(Store(mem, Node(mem, root, Path(n)).value, Slot(n), e), root, m)
         == if m == n then if Present(e) then Some(e) else None else Lookup(mem, root, m)
  {
    NodeAfterLeaf(mem, root, Path(n), Slot(n), e, Path(m));
    if m != n && Path(m) == Path(n) && Slot(m) == Slot(n) {
      PathAndSlotDetermineThePage(m, n);
    }
  }

  lemma ViewAfterChange(mem: Memory, mem': Memory, root: nat, n: nat, e: Option<u64>)
    requires n < FRAME_LIMIT
    requires forall m: nat :: m < FRAME_LIMIT ==>
      Lookup(mem', root, m) == if m == n then e else Lookup(mem, root, m)
    ensures View(mem', root) == if e.Some? then View(mem, root)[n := e.value] else View(mem, root) - {n}
  {
    hide Lookup;
  }

  /** Storing a leaf entry inserts or removes one page of the map and keeps the tree. */
  lemma TreeAfterLeaf(mem: Memory, root: nat, n: nat, e: u64)
    requires IsTree(mem, root) && n < FRAME_LIMIT && Node(mem, root, Path(n)).Some?
    ensures var mem' := Store(mem, Node(mem, root, Path(n)).value, Slot(n), e);
      IsTree(mem', root)
      && View(mem', root) == if Present(e) then View(mem, root)[n := e] else View(mem, root) - {n}
  {
    var mem' := Store(mem, Node(mem, root, Path(n)).value, Slot(n), e);
    assert IsTree(mem', root) by {
      forall q: seq<nat> | |q| <= 3
        ensures Node(mem', root, q) == Node(mem, root, q)
      {
        NodeAfterLeaf(mem, root, Path(n), Slot(n), e, q);
      }
      hide Node;
    }
    forall m: nat | m < FRAME_LIMIT
      ensures Lookup(mem', root, m) == if m == n then if Present(e) then Some(e) else None else Lookup(mem, root, m)
    {
      LookupAfterLeaf(mem, root, n, e, m);
    }
    ViewAfterChange(mem, mem', root, n, if Present(e) then Some(e) else None);
    hide *;
  }

  lemma IndicesInRange(mem: Memory, root: nat, path: seq<nat>, k: nat)
    requires IsTree(mem, root) && |path| <= 3 && Node(mem, root, path).Some? && k < |path|
    ensures path[k] < ENTRIES
    decreases |path|
  {
    var up := path[..|path| - 1];
    assert Node(mem, root, up).Some?;
    if k < |up| {
      IndicesInRange(mem, root, up, k);
    }
  }

  function PageAt(a: nat, b: nat, c: nat, j: nat): nat {
    ((a * 512 + b) * 512 + c) * 512 + j
  }

  lemma PageOfIndices(a: nat, b: nat, c: nat, j: nat)
    requires a < 512 && b < 512 && c < 512 && j < 512
    ensures var n := PageAt(a, b, c, j); n < FRAME_LIMIT && Path(n) == [a, b, c] && Slot(n) == j
  {
    var n := PageAt(a, b, c, j);
    assert n / 512 == (a * 512 + b) * 512 + c;
    assert n / 512 / 512 == a * 512 + b;
  }

  // ---------- fresh tables at any level, whatever their frames hold ----------

  /** From table f the indices r and j lead to a present entry. */
  predicate Reaches(mem: Memory, f: nat, r: seq<nat>, j: nat) {
    var t := Node(mem, f, r);
    t.Some? && t.value in mem && j < |mem[t.value]| && Present(mem[t.value][j])
  }

  predicate AreIndices(r: seq<nat>) {
    forall x :: 0 <= x < |r| ==> r[x] < ENTRIES
  }

  /** No page is found below f, a table with `depth` levels of tables under it. */
  ghost predicate LeadsNowhere(mem: Memory, f: nat, depth: nat) {
    forall r: seq<nat>, j: nat :: |r| == depth && AreIndices(r) && j < ENTRIES ==> !Reaches(mem, f, r, j)
  }

  /** No page but the one at r0 and j0 is found below f. */
  ghost predicate LeadsNowhereElse(mem: Memory, f: nat, r0: seq<nat>, j0: nat) {
    forall r: seq<nat>, j: nat :: |r| == |r0| && AreIndices(r) && j < ENTRIES && (r != r0 || j != j0) ==>
      !Reaches(mem, f, r, j)
  }

  lemma {:induction false} NodeFrom(mem: Memory, root: nat, p: seq<nat>, r: seq<nat>)
    requires Node(mem, root, p).Some?
    ensures Node(mem, root, p + r) == Node(mem, Node(mem, root, p).value, r)
    decreases |r|
  {
    if r == [] {
      assert p + r == p;
    } else {
      var r0, j := r[..|r| - 1], r[|r| - 1];
      var f := Node(mem, root, p).value;
      NodeFrom(mem, root, p, r0);
      NodeSnoc(mem, root, p + r0, j);
      NodeSnoc(mem, f, r0, j);
      assert p + r == p + r0 + [j] && r == r0 + [j];
    }
  }

  /** Frame f has been linked, and every other store has gone to frames that were no tables. */
  ghost predicate LinkedBeside(mem: Memory, after: Memory, root: nat, path: seq<nat>, i: nat, f: nat) {
    && CanLinkRaw(mem, root, path, i, f)
    && forall g: nat :: IsTable(mem, root, g) ==> g in after && after[g] == Linked(mem, root, path, i, f)[g]
  }

  lemma TablesBeside(mem: Memory, after: Memory, root: nat, path: seq<nat>, i: nat, f: nat, q: seq<nat>)
    requires LinkedBeside(mem, after, root, path, i, f) && |q| <= 3 && Node(mem, root, q).Some?
    ensures var u := Node(mem, root, q).value;
      && u in mem && u in after && |after[u]| == |mem[u]| && (q == path ==> i < |mem[u]|)
      && after[u] == if q == path then mem[u][i := LinkEntry(f)] else mem[u]
  {
    hide LinkEntry, Step;
    assert IsTable(mem, root, Node(mem, root, q).value);
  }

  lemma {:induction false} NodeBeside(mem: Memory, after: Memory, root: nat, path: seq<nat>, i: nat, f: nat,
                                      q: seq<nat>)
    requires LinkedBeside(mem, after, root, path, i, f) && |q| <= 3 && !(path + [i] <= q)
    ensures Node(after, root, q) == Node(mem, root, q)
    decreases |q|
  {
    hide LinkedBeside, LinkEntry;
    if q != [] {
      var q0, j := q[..|q| - 1], q[|q| - 1];
      assert q == q0 + [j];
      NodeBeside(mem, after, root, path, i, f, q0);
      NodeSnoc(mem, root, q0, j);
      NodeSnoc(after, root, q0, j);
      if Node(mem, root, q0).Some? {
        TablesBeside(mem, after, root, path, i, f, q0);
        assert q0 == path ==> j != i;
      }
    }
  }

  lemma {:induction false} NothingBelow(mem: Memory, root: nat, p: seq<nat>, r: seq<nat>)
    requires Node(mem, root, p).None?
    ensures Node(mem, root, p + r).None?
    decreases |r|
  {
    if r == [] {
      assert p + r == p;
    } else {
      var r0, j := r[..|r| - 1], r[|r| - 1];
      NothingBelow(mem, root, p, r0);
      NodeSnoc(mem, root, p + r0, j);
      assert p + r == p + r0 + [j];
    }
  }

  lemma LinkIsFollowed(mem: Memory, after: Memory, root: nat, path: seq<nat>, i: nat, f: nat)
    requires LinkedBeside(mem, after, root, path, i, f)
    ensures Node(after, root, path + [i]) == Some(f) && Node(mem, root, path + [i]).None?
  {
    hide LinkEntry;
    assert !(path + [i] <= path);
    NodeBeside(mem, after, root, path, i, f, path);
    TablesBeside(mem, after, root, path, i, f, path);
    NodeSnoc(after, root, path, i);
    NodeSnoc(mem, root, path, i);
  }

  lemma LookupBelow(mem: Memory, after: Memory, root: nat, path: seq<nat>, i: nat, f: nat, n: nat)
    requires LinkedBeside(mem, after, root, path, i, f) && path + [i] <= Path(n)
    ensures Lookup(mem, root, n).None?
    ensures Lookup(after, root, n).Some? <==> Reaches(after, f, Path(n)[|path| + 1..], Slot(n))
  {
    hide Step, Path, Slot, LinkEntry;
    var r := Path(n)[|path| + 1..];
    assert Path(n) == path + [i] + r;
    LinkIsFollowed(mem, after, root, path, i, f);
    NodeFrom(after, root, path + [i], r);
    NothingBelow(mem, root, path + [i], r);
    hide Node, LinkedBeside;
  }

  lemma LookupBeside(mem: Memory, after: Memory, root: nat, path: seq<nat>, i: nat, f: nat, n: nat)
    requires LinkedBeside(mem, after, root, path, i, f)
    ensures path + [i] <= Path(n) ==>
      && Lookup(mem, root, n).None?
      && (Lookup(after, root, n).Some? <==> Reaches(after, f, Path(n)[|path| + 1..], Slot(n)))
    ensures !(path + [i] <= Path(n)) ==> Lookup(after, root, n) == Lookup(mem, root, n)
  {
    hide Step, Slot, LinkEntry, Node, Reaches;
    if path + [i] <= Path(n) {
      LookupBelow(mem, after, root, path, i, f, n);
    } else {
      NodeBeside(mem, after, root, path, i, f, Path(n));
      if Node(mem, root, Path(n)).Some? {
        TablesBeside(mem, after, root, path, i, f, Path(n));
        assert |path| < 3;
      }
    }
  }

  /** The page that the indices r and j below path + [i] belong to. */
  lemma PageBelow(mem: Memory, after: Memory, root: nat, path: seq<nat>, i: nat, f: nat, r: seq<nat>, j: nat)
    returns (m: nat)
    requires LinkedBeside(mem, after, root, path, i, f)
    requires |path| + 1 + |r| == 3 && AreIndices(r) && j < ENTRIES
    ensures m < FRAME_LIMIT && Path(m) == path + [i] + r && Slot(m) == j
    ensures Lookup(mem, root, m).None? && (Lookup(after, root, m).Some? <==> Reaches(after, f, r, j))
  {
    hide Lookup, Reaches, Node, Step, LinkEntry, PageAt, Path, Slot;
    var q := path + [i] + r;
    forall k | 0 <= k < |path|
      ensures path[k] < ENTRIES
    {
      IndicesInRange(mem, root, path, k);
    }
    PageOfIndices(q[0], q[1], q[2], j);
    m := PageAt(q[0], q[1], q[2], j);
    assert Path(m) == q && q[|path| + 1..] == r;
    LookupBeside(mem, after, root, path, i, f, m);
  }

  lemma PathsAreIndices()
    ensures forall n: nat :: |Path(n)| == 3 && Slot(n) < ENTRIES && AreIndices(Path(n))
    ensures forall n: nat, k: nat :: k <= 3 ==> AreIndices(Path(n)[k..])
  {
  }

  /** Linking a fresh table at any level, taken by itself, leaves the map alone exactly if no present entry of the
      frame reaches a present leaf. */
  lemma FreshTableMustLeadNowhere(mem: Memory, root: nat, path: seq<nat>, i: nat, f: nat)
    requires CanLinkRaw(mem, root, path, i, f)
    ensures var mem' := Linked(mem, root, path, i, f);
      View(mem', root) == View(mem, root) <==> LeadsNowhere(mem', f, 2 - |path|)
  {
    hide Node, Step, Lookup, Reaches, Path, Slot, LinkEntry;
    var mem' := Linked(mem, root, path, i, f);
    assert LinkedBeside(mem, mem', root, path, i, f) by {
      assert forall q: seq<nat> :: |q| <= 3 && Node(mem, root, q).Some? ==> Node(mem, root, q).value in mem;
    }
    hide Linked, CanLinkRaw, LinkedBeside, AreIndices;
    PathsAreIndices();
    if LeadsNowhere(mem', f, 2 - |path|) {
      forall n: nat
        ensures Lookup(mem', root, n) == Lookup(mem, root, n)
      {
        LookupBeside(mem, mem', root, path, i, f, n);
      }
    } else {
      var r: seq<nat>, j: nat :| |r| == 2 - |path| && AreIndices(r) && j < ENTRIES && Reaches(mem', f, r, j);
      var m := PageBelow(mem, mem', root, path, i, f, r, j);
      assert m in View(mem', root) && m !in View(mem, root);
    }
  }

  /** The whole map operation with a missing table at any level, whatever the fresh frames hold: once the links and
      the leaf are stored, it has entered this page and changed no other exactly if no present entry of the first
      fresh frame other than the linked one, and none further down, reaches a present leaf. */
  lemma FreshTablesMustLeadNowhereElse(mem: Memory, after: Memory, root: nat, n: nat, k: nat, f: nat, leaf: u64)
    requires k < 3 && n < FRAME_LIMIT && LinkedBeside(mem, after, root, Path(n)[..k], Path(n)[k], f)
    requires Lookup(after, root, n) == Some(leaf)
    ensures View(after, root) == View(mem, root)[n := leaf]
       <==> LeadsNowhereElse(after, f, Path(n)[k + 1..], Slot(n))
  {
    hide Node, Step, Lookup, Reaches, Path, Slot, LinkedBeside, AreIndices;
    PathsAreIndices();
    var path, i, r0 := Path(n)[..k], Path(n)[k], Path(n)[k + 1..];
    assert Path(n) == path + [i] + r0;
    if LeadsNowhereElse(after, f, r0, Slot(n)) {
      forall m: nat | m < FRAME_LIMIT
        ensures Lookup(after, root, m) == if m == n then Some(leaf) else Lookup(mem, root, m)
      {
        LookupBeside(mem, after, root, path, i, f, m);
        if m != n && path + [i] <= Path(m) {
          var r := Path(m)[k + 1..];
          assert Path(m) == path + [i] + r;
          if r == r0 && Slot(m) == Slot(n) {
            PathAndSlotDetermineThePage(m, n);
          }
        }
      }
      ViewAfterChange(mem, after, root, n, Some(leaf));
    } else {
      var r: seq<nat>, j: nat :| |r| == |r0| && AreIndices(r) && j < ENTRIES && (r != r0 || j != Slot(n))
        && Reaches(after, f, r, j);
      var m := PageBelow(mem, after, root, path, i, f, r, j);
      assert m != n by {
        assert (path + [i] + r)[k + 1..] == r;
      }
      assert m in View(after, root) && m !in View(mem, root)[n := leaf];
    }
  }

  lemma FrameIsNoTable(mem: Memory, root: nat, path: seq<nat>, i: nat, f: nat)
    requires CanLinkRaw(mem, root, path, i, f)
    ensures Linked(mem, root, path, i, f)[f] == mem[f] && |mem[f]| == ENTRIES
  {
    assert IsTable(mem, root, Node(mem, root, path).value);
  }

  /** The link of a fresh page table, taken by itself, leaves the map alone exactly if the frame holds no stale present
      entry. */
  lemma FreshTableMustHoldNothing(mem: Memory, root: nat, path: seq<nat>, i: nat, f: nat)
    requires CanLinkRaw(mem, root, path, i, f) && |path| == 2
    ensures View(Linked(mem, root, path, i, f), root) == View(mem, root)
       <==> forall j :: 0 <= j < ENTRIES ==> !Present(mem[f][j])
  {
    hide Step, View, Present, LinkEntry;
    var mem' := Linked(mem, root, path, i, f);
    FrameIsNoTable(mem, root, path, i, f);
    FreshTableMustLeadNowhere(mem, root, path, i, f);
    assert f in mem';
    hide Linked, CanLinkRaw;
    assert forall j: nat :: j < ENTRIES ==> (Reaches(mem', f, [], j) <==> Present(mem[f][j]));
    assert AreIndices([]);
  }

  /** Linking frame `f` as the page table of page n and storing the leaf of n in it: KiMMap when only the last
      table is missing, whatever the frame holds. */
  ghost function MappedThrough(mem: Memory, root: nat, n: nat, f: nat, leaf: u64): Memory
    requires CanLinkRaw(mem, root, Path(n)[..2], Path(n)[2], f)
  {
    Store(Linked(mem, root, Path(n)[..2], Path(n)[2], f), f, Slot(n), leaf)
  }

  lemma MappedThroughFinds(mem: Memory, root: nat, n: nat, f: nat, leaf: u64)
    requires CanLinkRaw(mem, root, Path(n)[..2], Path(n)[2], f) && Present(leaf) && n < FRAME_LIMIT
    ensures Lookup(MappedThrough(mem, root, n, f, leaf), root, n) == Some(leaf)
  {
    hide Node, Step, Lookup, LinkEntry, Present, IsTree;
    var path, i := Path(n)[..2], Path(n)[2];
    assert path + [i] == Path(n);
    TreeAfterLink(mem, root, path, i, f);
    NodeAfterLink(mem, root, path, i, f, Path(n));
    LookupAfterLeaf(Linked(mem, root, path, i, f), root, n, leaf, n);
  }

  lemma MappedThroughIsBeside(mem: Memory, root: nat, n: nat, f: nat, leaf: u64)
    requires CanLinkRaw(mem, root, Path(n)[..2], Path(n)[2], f)
    ensures LinkedBeside(mem, MappedThrough(mem, root, n, f, leaf), root, Path(n)[..2], Path(n)[2], f)
    ensures var t := MappedThrough(mem, root, n, f, leaf); f in t && t[f] == mem[f][Slot(n) := leaf]
  {
    hide LinkEntry;
    FrameIsNoTable(mem, root, Path(n)[..2], Path(n)[2], f);
  }

  /** With an uncleared frame as the last table, the whole map operation enters this page and changes no other exactly
      if no other entry of the frame is present: the source never clears the frames it links. */
  lemma FreshTableMustHoldNothingElse(mem: Memory, root: nat, n: nat, f: nat, leaf: u64)
    requires CanLinkRaw(mem, root, Path(n)[..2], Path(n)[2], f) && Present(leaf) && n < FRAME_LIMIT
    ensures View(MappedThrough(mem, root, n, f, leaf), root) == View(mem, root)[n := leaf]
       <==> forall j :: 0 <= j < ENTRIES && j != Slot(n) ==> !Present(mem[f][j])
  {
    hide Step, Present, Path, MappedThrough, View, LinkedBeside;
    PathsAreIndices();
    var after := MappedThrough(mem, root, n, f, leaf);
    MappedThroughFinds(mem, root, n, f, leaf);
    MappedThroughIsBeside(mem, root, n, f, leaf);
    FrameIsNoTable(mem, root, Path(n)[..2], Path(n)[2], f);
    hide CanLinkRaw, Lookup;
    FreshTablesMustLeadNowhereElse(mem, after, root, n, 2, f, leaf);
    assert Path(n)[3..] == [];
    assert forall j: nat :: j < ENTRIES && j != Slot(n) ==> (Reaches(after, f, [], j) <==> Present(mem[f][j]));
    assert AreIndices([]);
  }

  ghost predicate SameLinks(a: Memory, b: Memory, t: nat) {
    t in a && t in b && |a[t]| == |b[t]| && forall i :: 0 <= i < |a[t]| && Present(a[t][i]) ==> b[t][i] == a[t][i]
  }

  /** Going from `a` to `b` moved no table and rewrote no entry that linked two tables. */
  ghost predicate KeepsLinks(a: Memory, b: Memory, root: nat) {
    forall q: seq<nat> :: |q| <= 3 && Node(a, root, q).Some? ==>
      && Node(b, root, q) == Node(a, root, q)
      && (|q| < 3 ==> SameLinks(a, b, Node(a, root, q).value))
  }

  lemma KeepsLinksReflexive(mem: Memory, root: nat)
    requires IsTree(mem, root)
    ensures KeepsLinks(mem, mem, root)
  {
  }

  lemma KeepsLinksTransitive(a: Memory, b: Memory, c: Memory, root: nat)
    requires KeepsLinks(a, b, root) && KeepsLinks(b, c, root)
    ensures KeepsLinks(a, c, root)
  {
    hide Node;
  }

  lemma LinkKeepsLinks(mem: Memory, root: nat, path: seq<nat>, i: nat, f: nat)
    requires CanLink(mem, root, path, i, f)
    ensures var mem' := Linked(mem, root, path, i, f);
      KeepsLinks(mem, mem', root) && Node(mem', root, path + [i]) == Some(f) && f in mem' && Zeroed(mem'[f])
  {
    var t := Node(mem, root, path).value;
    var mem' := Linked(mem, root, path, i, f);
    NodeSnoc(mem, root, path, i);
    NodeAfterLink(mem, root, path, i, f, path + [i]);
    forall q: seq<nat> | |q| <= 3 && Node(mem, root, q).Some?
      ensures Node(mem', root, q) == Node(mem, root, q) && SameLinks(mem, mem', Node(mem, root, q).value)
    {
      NodeAfterLink(mem, root, path, i, f, q);
    }
    hide Node;
  }

  lemma LeafKeepsLinks(mem: Memory, root: nat, path: seq<nat>, i: nat, e: u64)
    requires IsTree(mem, root) && |path| == 3 && Node(mem, root, path).Some? && i < ENTRIES
    ensures KeepsLinks(mem, Store(mem, Node(mem, root, path).value, i, e), root)
  {
    var t := Node(mem, root, path).value;
    var mem' := Store(mem, t, i, e);
    forall q: seq<nat> | |q| <= 3 && Node(mem, root, q).Some?
      ensures Node(mem', root, q) == Node(mem, root, q)
      ensures |q| < 3 ==> SameLinks(mem, mem', Node(mem, root, q).value)
    {
      NodeAfterLeaf(mem, root, path, i, e, q);
    }
    hide Node;
  }

  // ---------- access rights (Intel SDM volume 3A, sections 4.5 and 4.6) ----------

  /** PAGE_USER. */
  predicate UserBit(e: u64) {
    e / 4 % 2 == 1
  }

  /** PAGE_RW. */
  predicate WriteBit(e: u64) {
    e / 2 % 2 == 1
  }

  /** PAGE_PSE: the entry maps a large page and names no table. */
  predicate LargeBit(e: u64) {
    e / 128 % 2 == 1
  }

  /** Bit 63 forbids to fetch instructions. */
  predicate ExecuteBit(e: u64) {
    e / 0x8000_0000_0000_0000 == 0
  }

  /** A link as the source stores it is present and writable, names the frame and has no other bit set. */
  lemma LinkBits(f: nat)
    requires f < FRAME_LIMIT
    ensures LinkEntry(f) == f * 0x1000 + 3
    ensures var e := LinkEntry(f); Present(e) && WriteBit(e) && !UserBit(e) && !LargeBit(e) && ExecuteBit(e)
  {
    var e := LinkEntry(f);
    assert e / 4 == 2 * (f * 0x200);
    assert e / 2 == 2 * (f * 0x400) + 1;
    assert e / 128 == 2 * (f * 16);
  }

  lemma FrameBits(e: u64)
    ensures FrameOf(e) == e % 0x1_0000_0000_0000 / 0x1000
  {
  }

  /** The leaf is the frame of the address, attribute bits 2-11 and 52-63, the present and the writable bit. */
  lemma LeafBits(paddr: u64, attributes: u64)
    ensures var e := LeafEntry(paddr, attributes);
      && e % 4 == 3 && e % 0x1000 / 4 == attributes % 0x1000 / 4
      && e % 0x10_0000_0000_0000 / 0x1000 == paddr % 0x1_0000_0000_0000 / 0x1000
      && e / 0x10_0000_0000_0000 == attributes / 0x10_0000_0000_0000
  {
    var high, f, low := attributes / 0x10_0000_0000_0000, FrameOf(paddr), attributes % 0x1000 / 4 * 4 + 3;
    EntryFields(high, f, low);
    LowBits(LeafEntry(paddr, attributes));
    FrameBits(paddr);
    Split12(f, low);
    assert LeafEntry(paddr, attributes) == high * 0x10_0000_0000_0000 + (f * 0x1000 + low);
  }

  lemma EvenPart(q: nat, x: nat)
    ensures (q * 0x400 + x) % 2 == x % 2
  {
    assert q * 0x400 == 2 * (q * 0x200);
  }

  lemma UserBitOfFlags(e: u64)
    ensures UserBit(e) <==> FlagsOf(e) / 4 % 2 == 1
  {
    var high, q, low := e / 0x10_0000_0000_0000, e / 0x1000, e % 0x1000;
    DropLowTwoBits(high, low);
    EvenPart(high, low / 4);
    DropLowTwoBits(q, low);
    EvenPart(q, low / 4);
  }

  /** A leaf is a user page as its attributes say. */
  lemma LeafUserBit(paddr: u64, attributes: u64)
    ensures UserBit(LeafEntry(paddr, attributes)) <==> UserBit(attributes)
  {
    hide FlagsOf, UserBit, LeafEntry;
    UserBitOfFlags(LeafEntry(paddr, attributes));
    UserBitOfFlags(attributes);
  }

  /** The entry through which the walk comes to the table at a path. */
  function Link(mem: Memory, root: nat, q: seq<nat>): u64
    requires q != []
  {
    var up := Node(mem, root, q[..|q| - 1]);
    if up.Some? && up.value in mem && q[|q| - 1] < |mem[up.value]| then mem[up.value][q[|q| - 1]] else 0
  }

  /** The walk grants access from user mode only if the entries of all four levels do. */
  ghost predicate UserAccessible(mem: Memory, root: nat, n: nat) {
    && Lookup(mem, root, n).Some? && UserBit(Lookup(mem, root, n).value)
    && forall k :: 1 <= k <= 3 ==> UserBit(Link(mem, root, Path(n)[..k]))
  }

  /** The three tables below the root are there for page n and their links are open to user mode. */
  ghost predicate OpenPath(mem: Memory, root: nat, n: nat) {
    forall k :: 1 <= k <= 3 ==> Node(mem, root, Path(n)[..k]).Some? && UserBit(Link(mem, root, Path(n)[..k]))
  }

  /** Going from `a` to `b` every new table has been linked by its frame and the present and writable bits alone. */
  ghost predicate AddsPlainLinks(a: Memory, b: Memory, root: nat) {
    forall q: seq<nat> :: 1 <= |q| <= 3 && Node(a, root, q).None? && Node(b, root, q).Some? ==>
      Node(b, root, q).value < FRAME_LIMIT && Link(b, root, q) == LinkEntry(Node(b, root, q).value)
  }

  lemma SameLink(a: Memory, b: Memory, root: nat, q: seq<nat>)
    requires KeepsLinks(a, b, root) && 1 <= |q| <= 3 && Node(a, root, q).Some?
    ensures Link(b, root, q) == Link(a, root, q) && Node(b, root, q).Some?
  {
    assert Node(a, root, q[..|q| - 1]).Some?;
  }

  lemma AddsNoLinks(a: Memory, b: Memory, root: nat)
    requires forall q: seq<nat> :: |q| <= 3 ==> Node(b, root, q) == Node(a, root, q)
    ensures AddsPlainLinks(a, b, root)
  {
    hide Node;
  }

  lemma AddsPlainLinksTransitive(a: Memory, b: Memory, c: Memory, root: nat)
    requires AddsPlainLinks(a, b, root) && AddsPlainLinks(b, c, root) && KeepsLinks(b, c, root)
    ensures AddsPlainLinks(a, c, root)
  {
    hide Node, Link, LinkEntry, SameLinks;
    forall q: seq<nat> | 1 <= |q| <= 3 && Node(a, root, q).None? && Node(c, root, q).Some?
      ensures Node(c, root, q).value < FRAME_LIMIT && Link(c, root, q) == LinkEntry(Node(c, root, q).value)
    {
      if Node(b, root, q).Some? {
        SameLink(b, c, root, q);
      }
    }
  }

  /** The source links a new table by the present and writable bits, whatever page it is made for. */
  lemma LinkIsPlain(mem: Memory, root: nat, path: seq<nat>, i: nat, f: nat)
    requires CanLink(mem, root, path, i, f)
    ensures AddsPlainLinks(mem, Linked(mem, root, path, i, f), root)
  {
    hide Step, LinkEntry;
    var mem' := Linked(mem, root, path, i, f);
    NodesAfterLink(mem, root, path, i, f);
    assert Link(mem', root, path + [i]) == LinkEntry(f) by {
      assert (path + [i])[..|path|] == path;
      assert Node(mem', root, path) == Node(mem, root, path);
    }
    hide Node, Link, Linked;
    forall q: seq<nat> | 1 <= |q| <= 3 && Node(mem, root, q).None? && Node(mem', root, q).Some?
      ensures q == path + [i]
    {
    }
  }

  lemma ReachedThroughTables(mem: Memory, root: nat, n: nat, k: nat)
    requires k <= 3 && Node(mem, root, Path(n)).Some?
    ensures Node(mem, root, Path(n)[..k]).Some?
    decreases 3 - k
  {
    var p := Path(n);
    if k == 3 {
      assert p[..3] == p;
    } else {
      ReachedThroughTables(mem, root, n, k + 1);
      assert p[..k + 1][..k] == p[..k];
    }
  }

  /** Whatever PAGE_USER says in the leaf: a page is open to user mode exactly if it is mapped as a user page and all
      its tables were there, with open links, before. */
  lemma UserAccessNeedsOpenPath(a: Memory, b: Memory, root: nat, n: nat)
    requires KeepsLinks(a, b, root) && AddsPlainLinks(a, b, root)
    ensures UserAccessible(b, root, n)
       <==> Lookup(b, root, n).Some? && UserBit(Lookup(b, root, n).value) && OpenPath(a, root, n)
  {
    hide Node, Link, UserBit, KeepsLinks, LinkEntry;
    forall k | 1 <= k <= 3 && Node(b, root, Path(n)[..k]).Some? && Node(a, root, Path(n)[..k]).None?
      ensures !UserBit(Link(b, root, Path(n)[..k]))
    {
      LinkBits(Node(b, root, Path(n)[..k]).value);
    }
    forall k | 1 <= k <= 3 && Node(a, root, Path(n)[..k]).Some?
      ensures Link(b, root, Path(n)[..k]) == Link(a, root, Path(n)[..k])
    {
      SameLink(a, b, root, Path(n)[..k]);
    }
    if UserAccessible(b, root, n) {
      forall k | 1 <= k <= 3
        ensures Node(a, root, Path(n)[..k]).Some?
      {
        ReachedThroughTables(b, root, n, k);
      }
    }
  }

  /** What the processor finds at a virtual address. */
  datatype Translation = Fault | LargePage | SmallPage(address: nat, user: bool, write: bool, execute: bool)

  function EntryAt(mem: Memory, t: nat, i: nat): u64 {
    if t in mem && i < |mem[t]| then mem[t][i] else 0
  }

  /** The walk of the processor over four tables: it stops at an absent entry and at a large page, and grants what the
      entries of all levels grant.  Bit 7 is reserved in an entry of the root. */
  function Hardware(mem: Memory, root: nat, v: u64): Translation {
    var e4 := EntryAt(mem, root, v / 0x80_0000_0000 % 512);
    if !Present(e4) || LargeBit(e4) then Fault
    else
      var e3 := EntryAt(mem, e4 % 0x1_0000_0000_0000 / 0x1000, v / 0x4000_0000 % 512);
      if !Present(e3) then Fault
      else if LargeBit(e3) then LargePage
      else
        var e2 := EntryAt(mem, e3 % 0x1_0000_0000_0000 / 0x1000, v / 0x20_0000 % 512);
        if !Present(e2) then Fault
        else if LargeBit(e2) then LargePage
        else
          var e1 := EntryAt(mem, e2 % 0x1_0000_0000_0000 / 0x1000, v / 0x1000 % 512);
          if !Present(e1) then Fault
          else
            SmallPage(e1 % 0x1_0000_0000_0000 / 0x1000 * 0x1000 + v % 0x1000,
                      UserBit(e4) && UserBit(e3) && UserBit(e2) && UserBit(e1),
                      WriteBit(e4) && WriteBit(e3) && WriteBit(e2) && WriteBit(e1),
                      ExecuteBit(e4) && ExecuteBit(e3) && ExecuteBit(e2) && ExecuteBit(e1))
  }

  /** A link on the way to page n that was there is a large page. */
  ghost predicate HasLarge(mem: Memory, root: nat, n: nat) {
    exists k :: 1 <= k <= 3 && Node(mem, root, Path(n)[..k]).Some? && LargeBit(Link(mem, root, Path(n)[..k]))
  }

  /** Every link on the way to page n that was there is writable. */
  ghost predicate WritablePath(mem: Memory, root: nat, n: nat) {
    forall k :: 1 <= k <= 3 && Node(mem, root, Path(n)[..k]).Some? ==> WriteBit(Link(mem, root, Path(n)[..k]))
  }

  ghost predicate ExecutablePath(mem: Memory, root: nat, n: nat) {
    forall k :: 1 <= k <= 3 && Node(mem, root, Path(n)[..k]).Some? ==> ExecuteBit(Link(mem, root, Path(n)[..k]))
  }

  /** What the processor finds in `b`, from the tables of `a` and the map that `b` stands for. */
  ghost predicate WalkAgrees(a: Memory, b: Memory, root: nat, v: u64) {
    var n, found := Page(v), Hardware(b, root, v);
    && (found.SmallPage? <==> Lookup(b, root, n).Some? && !HasLarge(a, root, n))
    && (found.SmallPage? ==>
          var e := Lookup(b, root, n).value;
          found == SmallPage(e % 0x1_0000_0000_0000 / 0x1000 * 0x1000 + v % 0x1000,
                             UserBit(e) && OpenPath(a, root, n), WriteBit(e) && WritablePath(a, root, n),
                             ExecuteBit(e) && ExecutablePath(a, root, n)))
  }

  /** One level of the processor's walk, in terms of paths. */
  lemma LinkOnTheWay(mem: Memory, root: nat, p: seq<nat>, k: nat)
    requires k < |p| && Node(mem, root, p[..k]).Some?
    ensures Link(mem, root, p[..k + 1]) == EntryAt(mem, Node(mem, root, p[..k]).value, p[k])
    ensures Node(mem, root, p[..k + 1])
         == if Present(Link(mem, root, p[..k + 1])) then Some(FrameOf(Link(mem, root, p[..k + 1]))) else None
  {
    assert p[..k + 1][..k] == p[..k];
  }

  lemma RootOfPath(mem: Memory, root: nat, p: seq<nat>)
    ensures Node(mem, root, p[..0]) == Some(root)
  {
  }

  /** The processor's walk through the links of the path. */
  lemma HardwareByLinks(mem: Memory, root: nat, v: u64)
    ensures var n := Page(v);
      var e4, e3, e2 := Link(mem, root, Path(n)[..1]), Link(mem, root, Path(n)[..2]), Link(mem, root, Path(n)[..3]);
      var leaf, found := Lookup(mem, root, n), Hardware(mem, root, v);
      && (found.SmallPage? <==> leaf.Some? && !LargeBit(e4) && !LargeBit(e3) && !LargeBit(e2))
      && (leaf.Some? ==> Present(e4) && Present(e3) && Present(e2))
      && (found.SmallPage? ==>
            var e1 := leaf.value;
            found == SmallPage(e1 % 0x1_0000_0000_0000 / 0x1000 * 0x1000 + v % 0x1000,
                               UserBit(e4) && UserBit(e3) && UserBit(e2) && UserBit(e1),
                               WriteBit(e4) && WriteBit(e3) && WriteBit(e2) && WriteBit(e1),
                               ExecuteBit(e4) && ExecuteBit(e3) && ExecuteBit(e2) && ExecuteBit(e1)))
  {
    hide UserBit, WriteBit, ExecuteBit, LargeBit, FrameOf, Link, Node;
    var p := Path(Page(v));
    IndexSlices(v);
    assert Node(mem, root, p[..0]) == Some(root) by {
      RootOfPath(mem, root, p);
    }
    LinkOnTheWay(mem, root, p, 0);
    FrameBits(Link(mem, root, p[..1]));
    if Node(mem, root, p[..1]).Some? {
      LinkOnTheWay(mem, root, p, 1);
      FrameBits(Link(mem, root, p[..2]));
    }
    if Node(mem, root, p[..2]).Some? {
      LinkOnTheWay(mem, root, p, 2);
      FrameBits(Link(mem, root, p[..3]));
    }
    assert p[..3] == p;
    if Node(mem, root, p).Some? {
      ReachedThroughTables(mem, root, Page(v), 1);
      ReachedThroughTables(mem, root, Page(v), 2);
    }
  }

  /** The links of a mapped page are the old ones where there were tables, and plain ones elsewhere. */
  lemma LinksOfMapped(a: Memory, b: Memory, root: nat, n: nat, k: nat)
    requires KeepsLinks(a, b, root) && AddsPlainLinks(a, b, root) && 1 <= k <= 3
    requires Node(b, root, Path(n)[..k]).Some?
    ensures var q := Path(n)[..k]; var e := Link(b, root, q);
      if Node(a, root, q).Some? then e == Link(a, root, q)
      else WriteBit(e) && !UserBit(e) && !LargeBit(e) && ExecuteBit(e)
  {
    hide Node, Link, LinkEntry, UserBit, WriteBit, LargeBit, ExecuteBit, KeepsLinks;
    var q := Path(n)[..k];
    if Node(a, root, q).Some? {
      SameLink(a, b, root, q);
    } else {
      LinkBits(Node(b, root, q).value);
    }
  }

  lemma MappedIsReached(mem: Memory, root: nat, n: nat)
    requires Lookup(mem, root, n).Some?
    ensures |Path(n)| == 3 && forall k :: 1 <= k <= 3 ==> Node(mem, root, Path(n)[..k]).Some?
  {
    hide Node;
    ReachedThroughTables(mem, root, n, 1);
    ReachedThroughTables(mem, root, n, 2);
    ReachedThroughTables(mem, root, n, 3);
  }

  /** Whatever the leaf says, the processor grants what the leaf and the links that were there before grant: a table
      that has been made since is no large page, takes no right to write or to execute away, and gives none to user
      mode. */
  lemma HardwareAgrees(a: Memory, b: Memory, root: nat, v: u64)
    requires KeepsLinks(a, b, root) && AddsPlainLinks(a, b, root)
    ensures WalkAgrees(a, b, root, v)
  {
    hide Node, Link, UserBit, WriteBit, LargeBit, ExecuteBit, KeepsLinks, AddsPlainLinks, Hardware, Path, Page;
    var n := Page(v);
    HardwareByLinks(b, root, v);
    if Lookup(b, root, n).Some? {
      MappedIsReached(b, root, n);
      LinksOfMapped(a, b, root, n, 1);
      LinksOfMapped(a, b, root, n, 2);
      LinksOfMapped(a, b, root, n, 3);
    }
  }

  /** Page tables that grow from an empty root are closed to user mode altogether. */
  lemma EmptyRootIsClosed(mem: Memory, root: nat, n: nat)
    requires root in mem && Zeroed(mem[root])
    ensures !OpenPath(mem, root, n)
  {
    var p := Path(n)[..1];
    assert p[..0] == [];
    assert Node(mem, root, p).None?;
  }
}

/** The page tables together with the frame pool they take tables from. */
module PageTables {
  import opened Words
  import opened FreeSlots
  import opened Frames
  import opened PageTree
  import FrameAllocator

  ghost predicate IsFree(o: Owners, first: nat, f: nat) {
    first <= f < first + |o| && o[f - first] == 0
  }

  /** One of the n lowest free frames, which are the next n that the pool gives away. */
  ghost predicate AmongLowest(o: Owners, first: nat, f: nat, n: nat) {
    IsFree(o, first, f) && CountFree(o[..f - first]) < n
  }

  /** No table is free, and the n lowest free frames are there and are zeroed memory. */
  ghost predicate FreeFramesAreClean(mem: Memory, root: nat, o: Owners, first: nat, n: nat) {
    && first + |o| <= FRAME_LIMIT && n <= CountFree(o)
    && (forall f: nat :: IsFree(o, first, f) ==> !IsTable(mem, root, f))
    && (forall f: nat :: AmongLowest(o, first, f, n) ==> f in mem && Zeroed(mem[f]))
  }

  /** Going from `a` to `b` the only new tables lie on this path, and they were among the n lowest free frames. */
  ghost predicate AddsOnly(a: Memory, b: Memory, root: nat, path: seq<nat>, o: Owners, first: nat, n: nat) {
    forall q: seq<nat> :: |q| <= 3 ==>
      || Node(b, root, q) == Node(a, root, q)
      || (q <= path && Node(b, root, q).Some? && AmongLowest(o, first, Node(b, root, q).value, n))
  }

  /** What is low among the frames left after m allocations was low before. */
  lemma LowAfterAllocation(o: Owners, first: nat, f: nat, pid: int, m: nat, n: nat)
    requires pid != 0 && AmongLowest(AllocMany(o, pid, m), first, f, n)
    ensures AmongLowest(o, first, f, m + n)
  {
    hide AllocMany, CountFree;
    AllocManyTakesTheLowest(o, pid, m);
    AllocManyPrefix(o, pid, m, f - first);
  }

  lemma AddsOnlyStep(mem0: Memory, o0: Owners, a: Memory, o: Owners, b: Memory, root: nat, first: nat, pid: int,
                     path: seq<nat>, k: nat, taken: nat, n: nat)
    requires |path| == 3 && k < 3 && pid != 0 && o == AllocMany(o0, pid, taken)
    requires AddsOnly(mem0, a, root, path, o0, first, taken)
    requires AddsOnly(a, b, root, path[..k] + [path[k]], o, first, n)
    ensures AddsOnly(mem0, b, root, path, o0, first, taken + n)
  {
    hide Node, AllocMany, CountFree;
    assert path[..k] + [path[k]] == path[..k + 1];
    forall q: seq<nat> | |q| <= 3
      ensures Node(b, root, q) == Node(mem0, root, q)
           || (q <= path && Node(b, root, q).Some? && AmongLowest(o0, first, Node(b, root, q).value, taken + n))
    {
      if Node(b, root, q) != Node(a, root, q) {
        assert q <= path[..k + 1] <= path;
        LowAfterAllocation(o0, first, Node(b, root, q).value, pid, taken, n);
      }
    }
  }

  /** The same paths reach the same tables. */
  ghost predicate SameTables(a: Memory, b: Memory, root: nat) {
    forall q: seq<nat> :: |q| <= 3 ==> Node(b, root, q) == Node(a, root, q)
  }

  lemma SameNode(a: Memory, b: Memory, root: nat, path: seq<nat>)
    requires SameTables(a, b, root) && |path| <= 3
    ensures Node(b, root, path) == Node(a, root, path)
  {
    hide Node;
  }

  lemma AddsOnlyThenSame(mem0: Memory, o0: Owners, a: Memory, b: Memory, root: nat, first: nat, path: seq<nat>, n: nat)
    requires AddsOnly(mem0, a, root, path, o0, first, n) && SameTables(a, b, root)
    ensures AddsOnly(mem0, b, root, path, o0, first, n)
  {
    hide Node;
  }

  lemma NoNewTable(mem: Memory, root: nat, path: seq<nat>, i: nat, f: nat, g: nat)
    requires CanLink(mem, root, path, i, f) && g != f && !IsTable(mem, root, g)
    ensures !IsTable(Linked(mem, root, path, i, f), root, g)
  {
    hide Step, LinkEntry;
    forall q: seq<nat> | |q| <= 3
      ensures Node(Linked(mem, root, path, i, f), root, q) != Some(g)
    {
      NodeAfterLink(mem, root, path, i, f, q);
    }
    hide Node;
  }

  lemma OtherFramesStay(mem: Memory, root: nat, path: seq<nat>, i: nat, f: nat, g: nat)
    requires CanLink(mem, root, path, i, f) && g in mem && !IsTable(mem, root, g)
    ensures var mem' := Linked(mem, root, path, i, f); g in mem' && mem'[g] == mem[g]
  {
    hide Step, LinkEntry;
    assert IsTable(mem, root, Node(mem, root, path).value);
  }

  lemma LowAfterOne(o: Owners, first: nat, f: nat, pid: int, n: nat)
    requires pid != 0 && AmongLowest(AllocOne(o, pid), first, f, n)
    ensures AmongLowest(o, first, f, n + 1)
  {
    hide CountFree, AmongLowest, AllocOne;
    assert AllocMany(AllocOne(o, pid), pid, 0) == AllocOne(o, pid);
    assert AllocMany(o, pid, 1) == AllocOne(o, pid);
    LowAfterAllocation(o, first, f, pid, 1, n);
  }

  /** Taking and linking the lowest free frame leaves one clean frame less. */
  lemma CleanAfterLink(mem: Memory, root: nat, o: Owners, first: nat, n: nat, pid: int, path: seq<nat>, i: nat)
    requires FreeFramesAreClean(mem, root, o, first, n + 1) && pid != 0 && Lowest(o) < |o|
    requires CanLink(mem, root, path, i, first + Lowest(o))
    ensures FreeFramesAreClean(Linked(mem, root, path, i, first + Lowest(o)), root, AllocOne(o, pid), first, n)
  {
    hide CanLinkRaw, Linked, IsTable, Zeroed, CountFree;
    var f := first + Lowest(o);
    AllocOneCount(o, pid);
    forall g: nat | IsFree(AllocOne(o, pid), first, g)
      ensures !IsTable(Linked(mem, root, path, i, f), root, g)
    {
      assert IsFree(o, first, g) && g != f;
      NoNewTable(mem, root, path, i, f, g);
    }
    forall g: nat | AmongLowest(AllocOne(o, pid), first, g, n)
      ensures var mem' := Linked(mem, root, path, i, f); g in mem' && Zeroed(mem'[g])
    {
      LowAfterOne(o, first, g, pid, n);
      OtherFramesStay(mem, root, path, i, f, g);
    }
  }

  lemma CleanAfterLeaf(mem: Memory, root: nat, o: Owners, first: nat, n: nat, path: seq<nat>, i: nat, e: u64)
    requires FreeFramesAreClean(mem, root, o, first, n)
    requires IsTree(mem, root) && |path| == 3 && Node(mem, root, path).Some? && i < ENTRIES
    ensures FreeFramesAreClean(Store(mem, Node(mem, root, path).value, i, e), root, o, first, n)
  {
    hide CountFree, Zeroed;
    var t := Node(mem, root, path).value;
    var mem' := Store(mem, t, i, e);
    assert IsTable(mem, root, t);
    forall g: nat | IsFree(o, first, g)
      ensures !IsTable(mem', root, g)
    {
      forall q: seq<nat> | |q| <= 3
        ensures Node(mem', root, q) != Some(g)
      {
        NodeAfterLeaf(mem, root, path, i, e, q);
      }
    }
  }

  datatype Op = Map(vaddr: u64, paddr: u64, attributes: u64) | Unmap(vaddr: u64)

  ghost function Apply(m: map<nat, u64>, op: Op): map<nat, u64> {
    match op
    case Map(v, p, a) => m[Page(v) := LeafEntry(p, a)]
    case Unmap(v) => m - {Page(v)}
  }

  ghost function ApplyAll(m: map<nat, u64>, ops: seq<Op>): map<nat, u64> {
    if ops == [] then m else Apply(ApplyAll(m, ops[..|ops| - 1]), ops[|ops| - 1])
  }

  /** The paths to the three tables below the root that page n needs. */
  ghost function Prefixes(n: nat): set<seq<nat>> {
    {Path(n)[..1], Path(n)[..2], Path(n)[..3]}
  }

  ghost function Walked(ops: seq<Op>): set<seq<nat>> {
    if ops == [] then {}
    else (if ops[0].Map? then Prefixes(Page(ops[0].vaddr)) else {}) + Walked(ops[1..])
  }

  ghost function Absent(mem: Memory, root: nat, paths: set<seq<nat>>): set<seq<nat>> {
    set p | p in paths && Node(mem, root, p).None?
  }

  /** The paths of the tables that the maps of a run need and that are absent. */
  ghost function Needed(mem: Memory, root: nat, ops: seq<Op>): set<seq<nat>> {
    Absent(mem, root, Walked(ops))
  }

  lemma NothingTaken(o: Owners, pid: int)
    ensures AllocMany(o, pid, 0) == o
  {
  }

  lemma NothingNeeded(mem: Memory, root: nat)
    ensures Needed(mem, root, []) == {}
  {
  }

  lemma AbsentStaysAbsent(mem: Memory, root: nat, path: seq<nat>, k: nat)
    requires k < |path| && Node(mem, root, path[..k]).None?
    ensures Node(mem, root, path[..k + 1]).None?
  {
    assert path[..k] + [path[k]] == path[..k + 1];
    NodeSnoc(mem, root, path[..k], path[k]);
  }

  lemma PathShape(n: nat)
    ensures |Path(n)| == 3 && Slot(n) < ENTRIES
    ensures forall k :: 0 <= k < 3 ==> Path(n)[k] < ENTRIES && Path(n)[..k] + [Path(n)[k]] == Path(n)[..k + 1]
  {
  }

  /** The tables absent on the way to a page are as many as the walk finds missing. */
  lemma AbsentCount(mem: Memory, root: nat, n: nat)
    ensures |Absent(mem, root, Prefixes(n))| == Missing(mem, root, n)
  {
    hide Node, Path;
    PathShape(n);
    var p, s := Path(n), Absent(mem, root, Prefixes(n));
    assert |p[..1]| == 1 && |p[..2]| == 2 && |p[..3]| == 3;
    if Node(mem, root, p[..1]).None? {
      AbsentStaysAbsent(mem, root, p, 1);
      AbsentStaysAbsent(mem, root, p, 2);
      assert s == {p[..1], p[..2], p[..3]};
    } else if Node(mem, root, p[..2]).None? {
      AbsentStaysAbsent(mem, root, p, 2);
      assert s == {p[..2], p[..3]};
      assert MissingFrom(mem, root, p, 1) == 2;
    } else if Node(mem, root, p[..3]).None? {
      assert s == {p[..3]};
      assert MissingFrom(mem, root, p, 2) == 1;
      assert MissingFrom(mem, root, p, 1) == 1;
    } else {
      assert s == {};
      assert MissingFrom(mem, root, p, 2) == MissingFrom(mem, root, p, 3) == 0;
      assert MissingFrom(mem, root, p, 1) == 0;
    }
  }

  lemma AbsentSplit(mem: Memory, root: nat, s: set<seq<nat>>, w: set<seq<nat>>)
    ensures |Absent(mem, root, s + w)| == |Absent(mem, root, s)| + |Absent(mem, root, w) - s|
  {
    hide Node;
    assert Absent(mem, root, s + w) == Absent(mem, root, s) + (Absent(mem, root, w) - s);
  }

  lemma NeededForMap(mem: Memory, root: nat, ops: seq<Op>)
    requires ops != [] && ops[0].Map?
    ensures Missing(mem, root, Page(ops[0].vaddr)) <= |Needed(mem, root, ops)|
  {
    hide Node, Page, MissingFrom;
    var n := Page(ops[0].vaddr);
    AbsentCount(mem, root, n);
    AbsentSplit(mem, root, Prefixes(n), Walked(ops[1..]));
  }

  lemma {:induction false} WalkedShape(ops: seq<Op>)
    ensures forall p :: p in Walked(ops) ==> 1 <= |p| <= 3
  {
    hide Path;
    if ops != [] {
      PathShape(Page(ops[0].vaddr));
      WalkedShape(ops[1..]);
    }
  }

  lemma AbsentBelow(mem: Memory, root: nat, path: seq<nat>, k: nat)
    requires |path| == 3 && k <= 3 && Node(mem, root, path[..k]).None?
    ensures Node(mem, root, path).None?
    decreases 3 - k
  {
    hide Step;
    if k == 3 {
      assert path[..3] == path;
    } else {
      assert path[..k] + [path[k]] == path[..k + 1];
      NodeSnoc(mem, root, path[..k], path[k]);
      AbsentBelow(mem, root, path, k + 1);
    }
  }

  /** A prefix of a path to a table is the path of a table. */
  lemma PrefixesReached(mem: Memory, root: nat, n: nat)
    requires Node(mem, root, Path(n)).Some?
    ensures forall p :: p in Prefixes(n) ==> Node(mem, root, p).Some?
  {
    hide Node;
    forall k: nat | k <= 3
      ensures Node(mem, root, Path(n)[..k]).Some?
    {
      if Node(mem, root, Path(n)[..k]).None? {
        AbsentBelow(mem, root, Path(n), k);
      }
    }
  }

  lemma AbsentAfterMap(a: Memory, b: Memory, root: nat, n: nat, w: set<seq<nat>>, o: Owners, first: nat,
                       taken: nat)
    requires Node(b, root, Path(n)).Some? && AddsOnly(a, b, root, Path(n), o, first, taken)
    requires forall p :: p in w ==> 1 <= |p| <= 3
    ensures Absent(b, root, w) == Absent(a, root, w) - Prefixes(n)
  {
    hide Node, Path;
    PrefixesReached(b, root, n);
    PathShape(n);
    forall p | p in w && p !in Prefixes(n)
      ensures Node(b, root, p) == Node(a, root, p)
    {
      if p <= Path(n) {
        assert p == Path(n)[..|p|];
      }
    }
  }

  /** A map leaves exactly the tables needed that are not on its own path. */
  lemma NeededAfterMap(a: Memory, b: Memory, root: nat, ops: seq<Op>, o: Owners, first: nat, taken: nat)
    requires ops != [] && ops[0].Map? && Node(b, root, Path(Page(ops[0].vaddr))).Some?
    requires AddsOnly(a, b, root, Path(Page(ops[0].vaddr)), o, first, taken)
    ensures |Needed(a, root, ops)| == Missing(a, root, Page(ops[0].vaddr)) + |Needed(b, root, ops[1..])|
  {
    hide Node, Page, MissingFrom, Path, Prefixes, AddsOnly, Absent;
    var n, w := Page(ops[0].vaddr), Walked(ops[1..]);
    AbsentCount(a, root, n);
    AbsentSplit(a, root, Prefixes(n), w);
    WalkedShape(ops[1..]);
    AbsentAfterMap(a, b, root, n, w, o, first, taken);
  }

  lemma SameTablesSameNeeded(a: Memory, b: Memory, root: nat, ops: seq<Op>)
    requires SameTables(a, b, root)
    ensures Needed(b, root, ops) == Needed(a, root, ops)
  {
    hide Node;
    WalkedShape(ops);
  }

  lemma NeededAfterUnmap(a: Memory, b: Memory, root: nat, ops: seq<Op>)
    requires ops != [] && ops[0].Unmap? && SameTables(a, b, root)
    ensures Needed(b, root, ops[1..]) == Needed(a, root, ops)
  {
    hide Node, SameTables;
    SameTablesSameNeeded(a, b, root, ops);
    assert Walked(ops) == Walked(ops[1..]);
  }

  function WithoutPresent(e: u64): (r: u64)
    ensures !Present(r) && r / 2 == e / 2
  {
    e - e % 2
  }

  lemma SameTablesSameMissing(a: Memory, b: Memory, root: nat, n: nat)
    requires SameTables(a, b, root)
    ensures Missing(a, root, n) == Missing(b, root, n)
  {
    hide Node;
    var p := Path(n);
    assert MissingFrom(a, root, p, 3) == MissingFrom(b, root, p, 3);
    assert MissingFrom(a, root, p, 2) == MissingFrom(b, root, p, 2);
    assert MissingFrom(a, root, p, 1) == MissingFrom(b, root, p, 1);
  }

  lemma CompleteMeansNoneMissing(mem: Memory, root: nat, n: nat)
    requires Node(mem, root, Path(n)).Some?
    ensures Missing(mem, root, n) == 0
  {
    hide Node, Step;
    var p := Path(n);
    forall k: nat | k <= 3
      ensures Node(mem, root, p[..k]).Some?
    {
      if Node(mem, root, p[..k]).None? {
        AbsentBelow(mem, root, p, k);
      }
    }
    assert MissingFrom(mem, root, p, 3) == 0;
    assert MissingFrom(mem, root, p, 2) == 0;
    assert MissingFrom(mem, root, p, 1) == 0;
  }

  lemma MappedMeansComplete(mem: Memory, root: nat, n: nat)
    requires n in View(mem, root)
    ensures Missing(mem, root, n) == 0
  {
    hide Node;
    CompleteMeansNoneMissing(mem, root, n);
  }

  /** When a table on the way is absent the page is not mapped, so there is nothing to remove. */
  lemma NothingStored(mem: Memory, root: nat, n: nat)
    requires IsTree(mem, root)
    ensures KeepsLinks(mem, mem, root) && SameTables(mem, mem, root) && AddsPlainLinks(mem, mem, root)
    ensures forall k: nat :: k <= 3 && Node(mem, root, Path(n)[..k]).None? ==>
      View(mem, root) - {n} == View(mem, root) && Node(mem, root, Path(n)).None?
  {
    hide Node, IsTree, KeepsLinks;
    KeepsLinksReflexive(mem, root);
    forall k: nat | k <= 3 && Node(mem, root, Path(n)[..k]).None?
      ensures Lookup(mem, root, n).None? && Node(mem, root, Path(n)).None?
    {
      AbsentBelow(mem, root, Path(n), k);
    }
  }

  lemma RootIsMemory(mem: Memory, root: nat, path: seq<nat>)
    ensures |path| == 3 ==> Node(mem, root, path[..0]) == Some(root)
  {
  }

  /** What one level of the walk does: `made` tells whether the table was missing; then the
      lowest free frame became it, zeroed, and otherwise nothing changed. */
  ghost predicate Descends(a: Memory, o: Owners, b: Memory, o': Owners, root: nat, first: nat, pid: int,
                           path: seq<nat>, index: nat, next: nat, made: bool)
  {
    && View(b, root) == View(a, root) && KeepsLinks(a, b, root) && AddsPlainLinks(a, b, root)
    && AddsOnly(a, b, root, path + [index], o, first, if made then 1 else 0)
    && Node(b, root, path + [index]) == Some(next)
    && (made <==> Node(a, root, path + [index]).None?)
    && if made then o' == AllocOne(o, pid) && next in b && Zeroed(b[next]) else o' == o && b == a
  }

  lemma TableIsMemory(mem: Memory, root: nat, path: seq<nat>, i: nat)
    requires IsTree(mem, root) && |path| < 3 && Node(mem, root, path).Some? && i < ENTRIES
    ensures var t := Node(mem, root, path).value;
      && t in mem && |mem[t]| == ENTRIES
      && Node(mem, root, path + [i]) == if Present(mem[t][i]) then Some(FrameOf(mem[t][i])) else None
  {
    NodeSnoc(mem, root, path, i);
  }

  lemma FollowingKeepsAll(mem: Memory, root: nat, o: Owners, first: nat, path: seq<nat>, i: nat, pid: int)
    requires IsTree(mem, root) && Node(mem, root, path + [i]).Some?
    ensures Descends(mem, o, mem, o, root, first, pid, path, i, Node(mem, root, path + [i]).value, false)
  {
    hide Node;
  }

  lemma LinkAddsOnly(mem: Memory, root: nat, o: Owners, first: nat, path: seq<nat>, i: nat)
    requires Lowest(o) < |o| && CanLink(mem, root, path, i, first + Lowest(o))
    ensures AddsOnly(mem, Linked(mem, root, path, i, first + Lowest(o)), root, path + [i], o, first, 1)
  {
    hide Node, Step, LinkEntry, Zeroed, Linked, CanLinkRaw;
    NodesAfterLink(mem, root, path, i, first + Lowest(o));
    CountFreePrefix(o, 0, Lowest(o));
    assert AmongLowest(o, first, first + Lowest(o), 1);
  }

  lemma LowestCanBeLinked(mem: Memory, root: nat, o: Owners, first: nat, n: nat, path: seq<nat>, i: nat)
    requires IsTree(mem, root) && FreeFramesAreClean(mem, root, o, first, n + 1)
    requires |path| < 3 && Node(mem, root, path).Some? && i < ENTRIES && Node(mem, root, path + [i]).None?
    ensures Lowest(o) < |o| && CanLink(mem, root, path, i, first + Lowest(o))
    ensures first + Lowest(o) < FRAME_LIMIT
  {
    CountFreeZero(o);
    CountFreePrefix(o, 0, Lowest(o));
    NodeSnoc(mem, root, path, i);
    assert AmongLowest(o, first, first + Lowest(o), n + 1);
  }

  /** Linking the lowest free frame is one level of the walk, and keeps the tree and the pool. */
  lemma LinkAllocated(mem: Memory, root: nat, o: Owners, first: nat, n: nat, path: seq<nat>, i: nat, pid: int)
    requires IsTree(mem, root) && FreeFramesAreClean(mem, root, o, first, n + 1)
    requires |path| < 3 && Node(mem, root, path).Some? && i < ENTRIES
    requires Node(mem, root, path + [i]).None? && pid != 0
    ensures Lowest(o) < |o| && first + Lowest(o) < FRAME_LIMIT
    ensures var t := Node(mem, root, path).value; t in mem && i < |mem[t]|
    ensures var f := first + Lowest(o); var t := Node(mem, root, path).value;
      var mem' := Store(mem, t, i, LinkEntry(f));
      && IsTree(mem', root) && FreeFramesAreClean(mem', root, AllocOne(o, pid), first, n)
      && Descends(mem, o, mem', AllocOne(o, pid), root, first, pid, path, i, f, true)
  {
    hide AddsOnly, Node, View, KeepsLinks, FreeFramesAreClean, Lowest, AllocOne, CountFree, IsTable, LinkEntry, CanLink,
         Store, IsTree, Step, Zeroed, AddsPlainLinks;
    var f := first + Lowest(o);
    LowestCanBeLinked(mem, root, o, first, n, path, i);
    TableIsMemory(mem, root, path, i);
    assert Linked(mem, root, path, i, f) == Store(mem, Node(mem, root, path).value, i, LinkEntry(f));
    TreeAfterLink(mem, root, path, i, f);
    ViewAfterLink(mem, root, path, i, f);
    LinkKeepsLinks(mem, root, path, i, f);
    LinkIsPlain(mem, root, path, i, f);
    LinkAddsOnly(mem, root, o, first, path, i);
    CleanAfterLink(mem, root, o, first, n, pid, path, i);
  }

  /** KiMMap after `k` levels: `table` is the table there, nothing has been unmapped or relinked, the frames
      taken are those of the missing tables so far, and `created` is set only above an empty table. */
  ghost predicate Progress(mem0: Memory, o0: Owners, mem: Memory, o: Owners, root: nat, first: nat, pid: int,
                           path: seq<nat>, k: nat, table: nat, created: bool)
    requires |path| == 3 && k <= 3
  {
    && View(mem, root) == View(mem0, root) && KeepsLinks(mem0, mem, root) && AddsPlainLinks(mem0, mem, root)
    && Node(mem, root, path[..k]) == Some(table)
    && MissingFrom(mem, root, path, k) <= MissingFrom(mem0, root, path, 0)
    && (var taken := MissingFrom(mem0, root, path, 0) - MissingFrom(mem, root, path, k);
        o == AllocMany(o0, pid, taken) && AddsOnly(mem0, mem, root, path, o0, first, taken))
    && (created && k < 3 ==> Node(mem, root, path[..k + 1]).None?)
  }

  lemma ProgressStart(mem: Memory, root: nat, o: Owners, first: nat, pid: int, path: seq<nat>)
    requires IsTree(mem, root) && |path| == 3
    ensures Progress(mem, o, mem, o, root, first, pid, path, 0, root, false)
  {
    assert AllocMany(o, pid, 0) == o;
    assert Node(mem, root, path[..0]) == Some(root);
  }

  lemma ProgressNeeds(mem0: Memory, o0: Owners, mem: Memory, o: Owners, root: nat, first: nat, pid: int,
                      path: seq<nat>, k: nat, table: nat, created: bool)
    requires |path| == 3 && k < 3 && Progress(mem0, o0, mem, o, root, first, pid, path, k, table, created)
    ensures Node(mem, root, path[..k]) == Some(table)
    ensures path[..k] + [path[k]] == path[..k + 1]
    ensures Node(mem, root, path[..k + 1]).None? ==> MissingFrom(mem, root, path, k) > 0
    ensures created ==> Node(mem, root, path[..k + 1]).None?
  {
    hide Node, View, KeepsLinks, AllocMany, CountFree, AddsOnly, AddsPlainLinks;
    assert path[..k] + [path[k]] == path[..k + 1];
  }

  lemma FreshTableIsEmpty(mem: Memory, root: nat, path: seq<nat>, next: nat, j: nat)
    requires Node(mem, root, path) == Some(next) && next in mem && Zeroed(mem[next])
    ensures Node(mem, root, path + [j]).None?
  {
    NodeSnoc(mem, root, path, j);
    ZeroTableHasNoSteps(mem, next, j);
  }

  /** The sticky flag is harmless: one level costs one frame exactly if its table was missing. */
  lemma LevelCost(a: Memory, o: Owners, b: Memory, o': Owners, root: nat, first: nat, pid: int,
                  path: seq<nat>, k: nat, next: nat, made: bool)
    requires |path| == 3 && k < 3 && Descends(a, o, b, o', root, first, pid, path[..k], path[k], next, made)
    ensures Node(b, root, path[..k + 1]) == Some(next)
    ensures MissingFrom(a, root, path, k) == (if made then 1 else 0) + MissingFrom(b, root, path, k + 1)
    ensures made && k < 2 ==> Node(b, root, path[..k + 2]).None?
  {
    hide Node, View, KeepsLinks, AllocOne, Zeroed, AddsPlainLinks;
    assert path[..k] + [path[k]] == path[..k + 1];
    if made && k < 2 {
      assert path[..k + 1] + [path[k + 1]] == path[..k + 2];
      FreshTableIsEmpty(b, root, path[..k + 1], next, path[k + 1]);
    }
  }

  lemma AllocOneMore(o0: Owners, pid: int, m: nat)
    ensures AllocOne(AllocMany(o0, pid, m), pid) == AllocMany(o0, pid, m + 1)
  {
    AllocManyAdd(o0, pid, m, 1);
    var o := AllocMany(o0, pid, m);
    assert AllocMany(AllocOne(o, pid), pid, 0) == AllocOne(o, pid);
  }

  lemma ProgressStep(mem0: Memory, o0: Owners, a: Memory, o: Owners, b: Memory, o': Owners, root: nat, first: nat,
                     pid: int, path: seq<nat>, k: nat, table: nat, next: nat, created: bool, made: bool)
    requires |path| == 3 && k < 3 && pid != 0
    requires Progress(mem0, o0, a, o, root, first, pid, path, k, table, created)
    requires Descends(a, o, b, o', root, first, pid, path[..k], path[k], next, made)
    ensures Progress(mem0, o0, b, o', root, first, pid, path, k + 1, next, made)
    ensures MissingFrom(a, root, path, k) == (if made then 1 else 0) + MissingFrom(b, root, path, k + 1)
    ensures made <==> Node(a, root, path[..k + 1]).None?
  {
    hide Node, View, KeepsLinks, AllocMany, AllocOne, CountFree, MissingFrom, Zeroed, AddsOnly, AddsPlainLinks;
    var taken := MissingFrom(mem0, root, path, 0) - MissingFrom(a, root, path, k);
    LevelCost(a, o, b, o', root, first, pid, path, k, next, made);
    AddsOnlyStep(mem0, o0, a, o, b, root, first, pid, path, k, taken, if made then 1 else 0);
    KeepsLinksTransitive(mem0, a, b, root);
    AddsPlainLinksTransitive(mem0, a, b, root);
    AllocOneMore(o0, pid, taken);
    assert path[..k] + [path[k]] == path[..k + 1];
  }

  lemma ProgressEnds(mem0: Memory, o0: Owners, mem: Memory, o: Owners, root: nat, first: nat, pid: int,
                     n: nat, table: nat, created: bool)
    requires Progress(mem0, o0, mem, o, root, first, pid, Path(n), 3, table, created)
    ensures AddsOnly(mem0, mem, root, Path(n), o0, first, Missing(mem0, root, n))
    ensures View(mem, root) == View(mem0, root) && KeepsLinks(mem0, mem, root) && AddsPlainLinks(mem0, mem, root)
    ensures Node(mem, root, Path(n)) == Some(table)
    ensures o == AllocMany(o0, pid, Missing(mem0, root, n))
  {
    hide Node, View, KeepsLinks, AllocMany, CountFree, AddsOnly, AddsPlainLinks;
    assert Path(n)[..3] == Path(n);
  }

  /** Storing the leaf after the tables are in place. */
  lemma LeafStored(mem0: Memory, mem: Memory, root: nat, o: Owners, first: nat, spare: nat, n: nat, e: u64)
    requires IsTree(mem, root) && FreeFramesAreClean(mem, root, o, first, spare) && KeepsLinks(mem0, mem, root)
    requires n < FRAME_LIMIT && Node(mem, root, Path(n)).Some? && AddsPlainLinks(mem0, mem, root)
    ensures var t := Node(mem, root, Path(n)).value; t in mem && |mem[t]| == ENTRIES
    ensures var mem' := Store(mem, Node(mem, root, Path(n)).value, Slot(n), e);
      && IsTree(mem', root) && FreeFramesAreClean(mem', root, o, first, spare)
      && KeepsLinks(mem0, mem', root) && AddsPlainLinks(mem0, mem', root)
      && View(mem', root) == (if Present(e) then View(mem, root)[n := e] else View(mem, root) - {n})
      && SameTables(mem, mem', root)
  {
    hide View, KeepsLinks, FreeFramesAreClean, Step, AddsPlainLinks;
    var mem' := Store(mem, Node(mem, root, Path(n)).value, Slot(n), e);
    TreeAfterLeaf(mem, root, n, e);
    CleanAfterLeaf(mem, root, o, first, spare, Path(n), Slot(n), e);
    LeafKeepsLinks(mem, root, Path(n), Slot(n), e);
    KeepsLinksTransitive(mem0, mem, mem', root);
    forall q: seq<nat> | |q| <= 3
      ensures Node(mem', root, q) == Node(mem, root, q)
    {
      NodeAfterLeaf(mem, root, Path(n), Slot(n), e, q);
    }
    AddsNoLinks(mem, mem', root);
    AddsPlainLinksTransitive(mem0, mem, mem', root);
  }

  /** How many tables a walk still needs behind the next level. */
  ghost function LeftAfter(mem: Memory, root: nat, path: seq<nat>, k: nat): nat
    requires |path| == 3 && k < 3
  {
    if Node(mem, root, path[..k + 1]).None? && MissingFrom(mem, root, path, k) > 0
    then MissingFrom(mem, root, path, k) - 1 else MissingFrom(mem, root, path, k)
  }

  lemma NothingLeft(mem: Memory, root: nat, path: seq<nat>)
    requires |path| == 3
    ensures MissingFrom(mem, root, path, 3) == 0
  {
  }

  /** Fewer frames are clean, too. */
  lemma NoneNeeded(mem: Memory, root: nat, o: Owners, first: nat, n: nat)
    requires FreeFramesAreClean(mem, root, o, first, n)
    ensures FreeFramesAreClean(mem, root, o, first, 0)
  {
  }

  lemma SomeAreFree(mem: Memory, root: nat, o: Owners, first: nat, n: nat)
    requires FreeFramesAreClean(mem, root, o, first, n)
    ensures n <= CountFree(o)
  {
  }

  // ---------- frames taken ----------

  /** Going from `a` to `b` the pool has given n frames away, its lowest; the only new tables are among them; and no
      link has been moved or been made open to user mode. */
  ghost predicate Took(a: Memory, o: Owners, b: Memory, o': Owners, root: nat, first: nat, pid: int, n: nat) {
    && o' == AllocMany(o, pid, n)
    && KeepsLinks(a, b, root) && AddsPlainLinks(a, b, root)
    && forall f: nat :: IsTable(b, root, f) ==> IsTable(a, root, f) || AmongLowest(o, first, f, n)
  }

  lemma TookThenTook(a: Memory, o: Owners, b: Memory, o': Owners, c: Memory, o'': Owners, root: nat, first: nat,
                     pid: int, m: nat, n: nat)
    requires Took(a, o, b, o', root, first, pid, m) && Took(b, o', c, o'', root, first, pid, n) && pid != 0
    ensures Took(a, o, c, o'', root, first, pid, m + n)
  {
    hide AllocMany, KeepsLinks, AddsPlainLinks, IsTable, CountFree;
    AllocManyAdd(o, pid, m, n);
    KeepsLinksTransitive(a, b, c, root);
    AddsPlainLinksTransitive(a, b, c, root);
    forall f: nat | IsTable(c, root, f) && !IsTable(a, root, f)
      ensures AmongLowest(o, first, f, m + n)
    {
      if !IsTable(b, root, f) {
        LowAfterAllocation(o, first, f, pid, m, n);
      }
    }
  }

  lemma MapTook(a: Memory, o: Owners, b: Memory, o': Owners, root: nat, first: nat, pid: int, path: seq<nat>, n: nat)
    requires AddsOnly(a, b, root, path, o, first, n) && KeepsLinks(a, b, root) && AddsPlainLinks(a, b, root)
    requires o' == AllocMany(o, pid, n)
    ensures Took(a, o, b, o', root, first, pid, n)
  {
    hide Node, KeepsLinks, AddsPlainLinks, AmongLowest, AllocMany;
    forall f: nat | IsTable(b, root, f)
      ensures IsTable(a, root, f) || AmongLowest(o, first, f, n)
    {
      var q: seq<nat> :| |q| <= 3 && Node(b, root, q) == Some(f);
      assert Node(b, root, q) == Node(a, root, q) || AmongLowest(o, first, f, n);
    }
  }

  lemma UnmapTook(a: Memory, b: Memory, root: nat, o: Owners, first: nat, pid: int)
    requires SameTables(a, b, root) && KeepsLinks(a, b, root)
    ensures Took(a, o, b, o, root, first, pid, 0)
  {
    hide Node, KeepsLinks;
    NothingTaken(o, pid);
    forall f: nat | IsTable(b, root, f)
      ensures IsTable(a, root, f)
    {
      var q: seq<nat> :| |q| <= 3 && Node(b, root, q) == Some(f);
      assert Node(a, root, q) == Some(f);
    }
  }

  /** The part of a run before `rest` has taken the frames that the run needed and `rest` no longer needs. */
  ghost predicate Spent(a: Memory, o: Owners, b: Memory, o': Owners, root: nat, first: nat, pid: int,
                        ops: seq<Op>, rest: seq<Op>) {
    && |Needed(b, root, rest)| <= |Needed(a, root, ops)|
    && Took(a, o, b, o', root, first, pid, |Needed(a, root, ops)| - |Needed(b, root, rest)|)
  }

  lemma NothingSpent(mem: Memory, o: Owners, root: nat, first: nat, pid: int, ops: seq<Op>)
    requires IsTree(mem, root)
    ensures Spent(mem, o, mem, o, root, first, pid, ops, ops)
  {
    hide Needed, Node, IsTree, KeepsLinks;
    KeepsLinksReflexive(mem, root);
    UnmapTook(mem, mem, root, o, first, pid);
  }

  lemma SpentThenSpent(a: Memory, o: Owners, b: Memory, o': Owners, c: Memory, o'': Owners, root: nat, first: nat,
                       pid: int, ops: seq<Op>, rest: seq<Op>, last: seq<Op>)
    requires Spent(a, o, b, o', root, first, pid, ops, rest) && Spent(b, o', c, o'', root, first, pid, rest, last)
    requires pid != 0
    ensures Spent(a, o, c, o'', root, first, pid, ops, last)
  {
    hide Took, Needed;
    var x, y, z := |Needed(a, root, ops)|, |Needed(b, root, rest)|, |Needed(c, root, last)|;
    TookThenTook(a, o, b, o', c, o'', root, first, pid, x - y, y - z);
  }

  lemma AllSpent(a: Memory, o: Owners, b: Memory, o': Owners, root: nat, first: nat, pid: int, ops: seq<Op>)
    requires Spent(a, o, b, o', root, first, pid, ops, [])
    ensures Took(a, o, b, o', root, first, pid, |Needed(a, root, ops)|)
  {
    hide Took;
    NothingNeeded(b, root);
  }

  lemma MapSpent(a: Memory, o: Owners, b: Memory, o': Owners, root: nat, first: nat, pid: int, ops: seq<Op>)
    requires ops != [] && ops[0].Map? && Node(b, root, Path(Page(ops[0].vaddr))).Some?
    requires var n := Page(ops[0].vaddr);
      && AddsOnly(a, b, root, Path(n), o, first, Missing(a, root, n))
      && Took(a, o, b, o', root, first, pid, Missing(a, root, n))
    ensures Spent(a, o, b, o', root, first, pid, ops, ops[1..])
    ensures |Needed(a, root, ops)| == Missing(a, root, Page(ops[0].vaddr)) + |Needed(b, root, ops[1..])|
  {
    hide Took, Needed, AddsOnly, Node, Path, Page, MissingFrom;
    NeededAfterMap(a, b, root, ops, o, first, Missing(a, root, Page(ops[0].vaddr)));
  }

  lemma SameTablesSpent(a: Memory, o: Owners, b: Memory, root: nat, first: nat, pid: int, ops: seq<Op>)
    requires SameTables(a, b, root) && KeepsLinks(a, b, root)
    ensures Spent(a, o, b, o, root, first, pid, ops, ops)
    ensures Needed(b, root, ops) == Needed(a, root, ops)
  {
    hide Took, Needed, SameTables, KeepsLinks;
    SameTablesSameNeeded(a, b, root, ops);
    UnmapTook(a, b, root, o, first, pid);
  }

  lemma UnmapSpent(a: Memory, o: Owners, b: Memory, root: nat, first: nat, pid: int, ops: seq<Op>)
    requires ops != [] && ops[0].Unmap? && SameTables(a, b, root) && KeepsLinks(a, b, root)
    ensures Spent(a, o, b, o, root, first, pid, ops, ops[1..])
    ensures Needed(b, root, ops[1..]) == Needed(a, root, ops)
  {
    hide Took, Needed, SameTables, KeepsLinks;
    NeededAfterUnmap(a, b, root, ops);
    UnmapTook(a, b, root, o, first, pid);
  }

  /** What can be reached from user mode after frames have been taken for tables. */
  lemma UserPagesOf(a: Memory, o: Owners, b: Memory, o': Owners, root: nat, first: nat, pid: int, k: nat)
    requires Took(a, o, b, o', root, first, pid, k)
    ensures forall n :: n in View(b, root) ==>
      (UserAccessible(b, root, n) <==> UserBit(View(b, root)[n]) && OpenPath(a, root, n))
  {
    hide UserAccessible, OpenPath, UserBit, KeepsLinks, AddsPlainLinks, Lookup, IsTable;
    forall n | n in View(b, root)
      ensures UserAccessible(b, root, n) <==> UserBit(View(b, root)[n]) && OpenPath(a, root, n)
    {
      UserAccessNeedsOpenPath(a, b, root, n);
    }
  }

  /** What the processor finds after frames have been taken for tables. */
  lemma HardwareAfter(a: Memory, o: Owners, b: Memory, o': Owners, root: nat, first: nat, pid: int, k: nat)
    requires Took(a, o, b, o', root, first, pid, k)
    ensures forall v: u64 :: WalkAgrees(a, b, root, v)
  {
    hide WalkAgrees, KeepsLinks, AddsPlainLinks, IsTable;
    forall v: u64
      ensures WalkAgrees(a, b, root, v)
    {
      HardwareAgrees(a, b, root, v);
    }
  }

  /** The processor finds the page at `vaddr` in the frame of `paddr`, with write access exactly if every link of its
      path that was there before is writable; a large page on the way is not found to be one by the source. */
  ghost predicate MapsTo(a: Memory, b: Memory, root: nat, vaddr: u64, paddr: u64, attributes: u64) {
    var n, found := Page(vaddr), Hardware(b, root, vaddr);
    if HasLarge(a, root, n) then !found.SmallPage?
    else found == SmallPage(paddr % 0x1_0000_0000_0000 / 0x1000 * 0x1000 + vaddr % 0x1000,
                            UserBit(attributes) && OpenPath(a, root, n), WritablePath(a, root, n),
                            ExecuteBit(attributes) && ExecutablePath(a, root, n))
  }

  lemma LeafRights(e: u64, attributes: u64)
    requires e % 4 == 3 && e / 0x10_0000_0000_0000 == attributes / 0x10_0000_0000_0000
    ensures WriteBit(e) && (ExecuteBit(e) <==> ExecuteBit(attributes))
  {
  }

  lemma Bits12To51(e: u64)
    ensures e % 0x10_0000_0000_0000 / 0x1000 == e / 0x1000 % 0x100_0000_0000
  {
  }

  lemma LowOfLow(q: nat)
    ensures q % 0x100_0000_0000 < FRAME_LIMIT ==> q % FRAME_LIMIT == q % 0x100_0000_0000
  {
    var r := q % 0x100_0000_0000;
    assert q == q / 0x100_0000_0000 * 16 * FRAME_LIMIT + r;
    if r < FRAME_LIMIT {
      Split36(q / 0x100_0000_0000 * 16, r);
    }
  }

  lemma LeafAddress(e: u64, paddr: u64)
    requires e % 0x10_0000_0000_0000 / 0x1000 == paddr % 0x1_0000_0000_0000 / 0x1000
    ensures e % 0x1_0000_0000_0000 / 0x1000 == paddr % 0x1_0000_0000_0000 / 0x1000
  {
    FrameBits(e);
    FrameBits(paddr);
    Bits12To51(e);
    LowOfLow(e / 0x1000);
    hide *;
  }

  lemma HardwareAtNewPage(a: Memory, b: Memory, root: nat, vaddr: u64, paddr: u64, attributes: u64)
    requires WalkAgrees(a, b, root, vaddr) && Lookup(b, root, Page(vaddr)) == Some(LeafEntry(paddr, attributes))
    ensures MapsTo(a, b, root, vaddr, paddr, attributes)
  {
    hide HasLarge, OpenPath, WritablePath, ExecutablePath, Hardware, Page, Lookup, LeafEntry, UserBit, WriteBit,
         ExecuteBit;
    LeafBits(paddr, attributes);
    LeafUserBit(paddr, attributes);
    LeafRights(LeafEntry(paddr, attributes), attributes);
    LeafAddress(LeafEntry(paddr, attributes), paddr);
  }

  lemma InTheMap(mem: Memory, root: nat, n: nat, e: u64, m: map<nat, u64>)
    requires View(mem, root) == m[n := e]
    ensures Lookup(mem, root, n) == Some(e)
  {
    hide Lookup;
    assert n in View(mem, root);
  }

  /** The present bit of the leaf entry of page n is cleared, if there is a table for it, and nothing else changes. */
  ghost predicate OneBitCleared(a: Memory, b: Memory, root: nat, n: nat) {
    var t := Node(a, root, Path(n));
    if t.None? then b == a
    else
      && t.value in a && Slot(n) < |a[t.value]|
      && b == Store(a, t.value, Slot(n), a[t.value][Slot(n)] - a[t.value][Slot(n)] % 2)
  }

  class AddressSpace {
    const pmm: FrameAllocator.Pmm
    /** The frame cr3 points to. */
    const root: nat
    var mem: Memory

    ghost predicate Valid()
      reads this, pmm, pmm.bitmap, pmm.pidTrace
    {
      && pmm.Valid() && pmm.base % 0x1000 == 0
      && IsTree(mem, root)
      && FreeFramesAreClean(mem, root, pmm.Owner(), pmm.base / 0x1000, 0)
    }

    /** The next n frames that the pool gives away can be made tables. */
    ghost predicate Ready(n: nat)
      reads this, pmm, pmm.bitmap, pmm.pidTrace
    {
      Valid() && FreeFramesAreClean(mem, root, pmm.Owner(), pmm.base / 0x1000, n)
    }

    /** The map from page number to leaf entry. */
    ghost function Pages(): map<nat, u64>
      reads this
    {
      View(mem, root)
    }

    constructor (pmm: FrameAllocator.Pmm, root: nat, mem: Memory)
      requires pmm.Valid() && pmm.base % 0x1000 == 0 && IsTree(mem, root)
      requires FreeFramesAreClean(mem, root, pmm.Owner(), pmm.base / 0x1000, 0)
      ensures Valid() && this.pmm == pmm && this.root == root && this.mem == mem
    {
      this.pmm, this.root, this.mem := pmm, root, mem;
    }

    /** `created` is set when a frame is taken and is otherwise left as the caller had it. */
    method KiGetOrCreateTable(entry: u64, created: bool, currentPid: int) returns (table: nat, created': bool)
      requires pmm.Valid() && pmm.base % 0x1000 == 0 && currentPid != 0
      requires Present(entry) || CountFree(pmm.Owner()) > 0
      modifies pmm`freePages, pmm.bitmap, pmm.pidTrace
      ensures pmm.Valid()
      ensures if Present(entry) then table == FrameOf(entry) && created' == created && pmm.Owner() == old(pmm.Owner())
              else created' && Lowest(old(pmm.Owner())) < pmm.totalPages
                   && table == pmm.base / 0x1000 + Lowest(old(pmm.Owner()))
                   && pmm.Owner() == AllocOne(old(pmm.Owner()), currentPid)
    {
      hide Present, FrameOf, AllocOne, CountFree, Lowest;
      if !Present(entry) {
        CountFreeZero(pmm.Owner());
        var newPage := pmm.KiPmmAlloc(currentPid);
        assert newPage == (pmm.base / 0x1000 + Lowest(old(pmm.Owner()))) * 0x1000;
        return newPage / 0x1000, true;
      }
      return FrameOf(entry), created;
    }

    /** One level of KiMMap: get or create the next table, then store the link if `created`.
        The flag may still be set from the level above; the entry is absent in that case. */
    method NextTable(table: nat, index: nat, created: bool, currentPid: int, ghost path: seq<nat>,
                     ghost spare: nat)
      returns (next: nat, created': bool)
      requires |path| < 3 && Node(mem, root, path) == Some(table) && index < ENTRIES && currentPid != 0
      requires Ready(if Node(mem, root, path + [index]).None? then spare + 1 else spare)
      requires created ==> Node(mem, root, path + [index]).None?
      modifies this`mem, pmm`freePages, pmm.bitmap, pmm.pidTrace
      ensures Ready(spare)
      ensures Descends(old(mem), old(pmm.Owner()), mem, pmm.Owner(), root, pmm.base / 0x1000, currentPid,
                       path, index, next, created')
    {
      hide Node, Present, FrameOf, IsTree, FreeFramesAreClean, LinkEntry, Lowest, AllocOne, CountFree, Descends, Store,
           FrameAllocator.Agree;
      ghost var o := pmm.Owner();
      ghost var first := pmm.base / 0x1000;
      TableIsMemory(mem, root, path, index);
      var entry: u64 := mem[table][index];
      if !Present(entry) {
        LinkAllocated(mem, root, o, first, spare, path, index, currentPid);
        NoneNeeded(Store(mem, table, index, LinkEntry(first + Lowest(o))), root, AllocOne(o, currentPid), first, spare);
        SomeAreFree(mem, root, o, first, spare + 1);
      } else {
        FollowingKeepsAll(mem, root, o, first, path, index, currentPid);
      }
      next, created' := KiGetOrCreateTable(entry, created, currentPid);
      if created' {
        mem := Store(mem, table, index, LinkEntry(next));
      }
    }

    /** The three levels of KiMMap down to the page table. */
    method TableFor(vaddr: u64, currentPid: int, ghost spare: nat) returns (pt: nat)
      requires Ready(Missing(mem, root, Page(vaddr)) + spare) && currentPid != 0
      modifies this`mem, pmm`freePages, pmm.bitmap, pmm.pidTrace
      ensures Ready(spare) && Pages() == old(Pages())
      ensures KeepsLinks(old(mem), mem, root) && AddsPlainLinks(old(mem), mem, root)
      ensures Node(mem, root, Path(Page(vaddr))) == Some(pt)
      ensures pmm.Owner() == AllocMany(old(pmm.Owner()), currentPid, Missing(old(mem), root, Page(vaddr)))
      ensures AddsOnly(old(mem), mem, root, Path(Page(vaddr)), old(pmm.Owner()), pmm.base / 0x1000,
                       Missing(old(mem), root, Page(vaddr)))
    {
      hide AddsOnly, FrameAllocator.Agree, Node, IsTree, FreeFramesAreClean, MissingFrom, KeepsLinks, View, CountFree,
           AllocMany, Descends, Path, Slot, Progress, Store, AddsPlainLinks;
      var pml4Index := vaddr / 0x80_0000_0000 % 512;
      var pdptIndex := vaddr / 0x4000_0000 % 512;
      var pdIndex := vaddr / 0x20_0000 % 512;

      ghost var n := Page(vaddr);
      ghost var p, mem0, o0, first := Path(n), mem, pmm.Owner(), pmm.base / 0x1000;
      IndexSlices(vaddr);
      PathShape(n);
      ProgressStart(mem, root, o0, first, currentPid, p);
      var created := false;

      var pdpt, pd;
      ProgressNeeds(mem0, o0, mem, pmm.Owner(), root, first, currentPid, p, 0, root, created);
      ghost var m, o := mem, pmm.Owner();
      pdpt, created := NextTable(root, pml4Index, created, currentPid, p[..0],
                                 LeftAfter(mem, root, p, 0) + spare);
      ProgressStep(mem0, o0, m, o, mem, pmm.Owner(), root, first, currentPid, p, 0, root, pdpt, false, created);

      ProgressNeeds(mem0, o0, mem, pmm.Owner(), root, first, currentPid, p, 1, pdpt, created);
      m, o := mem, pmm.Owner();
      ghost var c := created;
      pd, created := NextTable(pdpt, pdptIndex, created, currentPid, p[..1],
                               LeftAfter(mem, root, p, 1) + spare);
      ProgressStep(mem0, o0, m, o, mem, pmm.Owner(), root, first, currentPid, p, 1, pdpt, pd, c, created);

      ProgressNeeds(mem0, o0, mem, pmm.Owner(), root, first, currentPid, p, 2, pd, created);
      m, o := mem, pmm.Owner();
      c := created;
      pt, created := NextTable(pd, pdIndex, created, currentPid, p[..2],
                               LeftAfter(mem, root, p, 2) + spare);
      ProgressStep(mem0, o0, m, o, mem, pmm.Owner(), root, first, currentPid, p, 2, pd, pt, c, created);
      NothingLeft(mem, root, p);
      ProgressEnds(mem0, o0, mem, pmm.Owner(), root, first, currentPid, n, pt, created);
    }

    /** Maps the page of `vaddr`; takes exactly the frames for the tables that were missing.  Of the free frames only
        those must be clean; `spare` further ones stay so. */
    method KiMMap(vaddr: u64, paddr: u64, attributes: u64, currentPid: int, ghost spare: nat)
      requires Ready(Missing(mem, root, Page(vaddr)) + spare) && currentPid != 0
      modifies this`mem, pmm`freePages, pmm.bitmap, pmm.pidTrace
      ensures Ready(spare)
      ensures Pages() == old(Pages())[Page(vaddr) := LeafEntry(paddr, attributes)]
      ensures Took(old(mem), old(pmm.Owner()), mem, pmm.Owner(), root, pmm.base / 0x1000, currentPid,
                   Missing(old(mem), root, Page(vaddr)))
      ensures AddsOnly(old(mem), mem, root, Path(Page(vaddr)), old(pmm.Owner()), pmm.base / 0x1000,
                       Missing(old(mem), root, Page(vaddr)))
      ensures Node(mem, root, Path(Page(vaddr))).Some?
      ensures forall v: u64 :: WalkAgrees(old(mem), mem, root, v)
      ensures MapsTo(old(mem), mem, root, vaddr, paddr, attributes)
    {
      hide AddsOnly, FrameAllocator.Agree, Node, IsTree, FreeFramesAreClean, MissingFrom, KeepsLinks, View, CountFree,
           AllocMany, LeafEntry, Path, Slot, Store, SameTables, FrameOf, AddsPlainLinks, Took, WalkAgrees, MapsTo,
           Lookup;
      ghost var n, mem0, o0, first := Page(vaddr), mem, pmm.Owner(), pmm.base / 0x1000;
      IndexSlices(vaddr);
      PathShape(n);
      var pt := TableFor(vaddr, currentPid, spare);
      var ptIndex := vaddr / 0x1000 % 512;
      var entry := LeafEntry(paddr, attributes);
      LeafStored(mem0, mem, root, pmm.Owner(), first, spare, n, entry);
      NoneNeeded(Store(mem, pt, ptIndex, entry), root, pmm.Owner(), first, spare);
      AddsOnlyThenSame(mem0, o0, mem, Store(mem, pt, ptIndex, entry), root, first, Path(n), Missing(mem0, root, n));
      SameNode(mem, Store(mem, pt, ptIndex, entry), root, Path(n));
      mem := Store(mem, pt, ptIndex, entry);
      MapTook(mem0, o0, mem, pmm.Owner(), root, first, currentPid, Path(n), Missing(mem0, root, n));
      HardwareAfter(mem0, o0, mem, pmm.Owner(), root, first, currentPid, Missing(mem0, root, n));
      InTheMap(mem, root, n, entry, old(Pages()));
      HardwareAtNewPage(mem0, mem, root, vaddr, paddr, attributes);
    }

    /** Clears the present bit of the leaf of `vaddr`, if the tables down to it exist; tables and pool stay. */
    method KiUMap(vaddr: u64, ghost spare: nat)
      requires Ready(spare)
      modifies this`mem
      ensures Ready(spare) && Pages() == old(Pages()) - {Page(vaddr)}
      ensures KeepsLinks(old(mem), mem, root) && SameTables(old(mem), mem, root)
      ensures OneBitCleared(old(mem), mem, root, Page(vaddr))
    {
      hide FrameAllocator.Agree, Node, IsTree, FreeFramesAreClean, KeepsLinks, View, Present, FrameOf, Path, Slot,
           Store, SameTables, AddsPlainLinks;
      var pml4Index := vaddr / 0x80_0000_0000 % 512;
      var pdptIndex := vaddr / 0x4000_0000 % 512;
      var pdIndex := vaddr / 0x20_0000 % 512;
      var ptIndex := vaddr / 0x1000 % 512;

      ghost var n := Page(vaddr);
      ghost var p := Path(n);
      IndexSlices(vaddr);
      PathShape(n);
      NothingStored(mem, root, n);

      RootIsMemory(mem, root, p);
      TableIsMemory(mem, root, p[..0], pml4Index);
      var entry: u64 := mem[root][pml4Index];
      var pdpt := FrameOf(entry);
      if !Present(entry) {
        assert Node(mem, root, p[..1]).None?;
        return;
      }
      TableIsMemory(mem, root, p[..1], pdptIndex);
      entry := mem[pdpt][pdptIndex];
      var pd := FrameOf(entry);
      if !Present(entry) {
        assert Node(mem, root, p[..2]).None?;
        return;
      }
      TableIsMemory(mem, root, p[..2], pdIndex);
      entry := mem[pd][pdIndex];
      var pt := FrameOf(entry);
      if !Present(entry) {
        assert Node(mem, root, p[..3]).None?;
        return;
      }
      assert p[..3] == p;
      LeafStored(mem, mem, root, pmm.Owner(), pmm.base / 0x1000, 0, n, 0);
      entry := mem[pt][ptIndex];
      LeafStored(mem, mem, root, pmm.Owner(), pmm.base / 0x1000, spare, n, WithoutPresent(entry));
      NoneNeeded(Store(mem, pt, ptIndex, WithoutPresent(entry)), root, pmm.Owner(), pmm.base / 0x1000, spare);
      mem := Store(mem, pt, ptIndex, WithoutPresent(entry));
    }

    /** Remapping a page that is mapped needs no free frame and takes none. */
    method UnmapThenRemap(vaddr: u64, paddr: u64, attributes: u64, currentPid: int, ghost spare: nat)
      requires Ready(spare) && currentPid != 0 && Page(vaddr) in Pages()
      modifies this`mem, pmm`freePages, pmm.bitmap, pmm.pidTrace
      ensures Ready(spare) && pmm.Owner() == old(pmm.Owner())
      ensures Pages() == old(Pages())[Page(vaddr) := LeafEntry(paddr, attributes)]
    {
      hide FrameAllocator.Agree, Node, IsTree, FreeFramesAreClean, KeepsLinks, SameTables, LeafEntry, MissingFrom,
           CountFree, AddsOnly, AllocMany, View, AddsPlainLinks;
      ghost var m := mem;
      NothingTaken(pmm.Owner(), currentPid);
      MappedMeansComplete(mem, root, Page(vaddr));
      KiUMap(vaddr, spare);
      SameTablesSameMissing(m, mem, root, Page(vaddr));
      KiMMap(vaddr, paddr, attributes, currentPid, spare);
    }

    /** Any run of maps and unmaps: the tables stay a tree over taken frames, they stand for the map that results
        from the same inserts and removes, and the run takes one frame for each table that its maps need and that
        was missing at first, whatever its length.  Of the free frames only those must be clean. */
    method Run(ops: seq<Op>, currentPid: int, ghost spare: nat)
      requires Ready(|Needed(mem, root, ops)| + spare) && currentPid != 0
      modifies this`mem, pmm`freePages, pmm.bitmap, pmm.pidTrace
      ensures Ready(spare) && Pages() == ApplyAll(old(Pages()), ops)
      ensures Took(old(mem), old(pmm.Owner()), mem, pmm.Owner(), root, pmm.base / 0x1000, currentPid,
                   |Needed(old(mem), root, ops)|)
      ensures forall n :: n in Pages() ==>
        (UserAccessible(mem, root, n) <==> UserBit(Pages()[n]) && OpenPath(old(mem), root, n))
      ensures forall v: u64 :: WalkAgrees(old(mem), mem, root, v)
    {
      hide FrameAllocator.Agree, Node, IsTree, FreeFramesAreClean, KeepsLinks, SameTables, AddsOnly, LeafEntry,
           MissingFrom, CountFree, View, AllocMany, Needed, Took, Spent, AddsPlainLinks, UserAccessible, OpenPath,
           UserBit, WalkAgrees;
      ghost var mem0, o, first := mem, pmm.Owner(), pmm.base / 0x1000;
      NothingSpent(mem, o, root, first, currentPid, ops);
      assert ops[0..] == ops;
      for i := 0 to |ops|
        invariant Ready(|Needed(mem, root, ops[i..])| + spare)
        invariant Spent(mem0, o, mem, pmm.Owner(), root, first, currentPid, ops, ops[i..])
        invariant Pages() == ApplyAll(old(Pages()), ops[..i])
      {
        ghost var m, before, rest := mem, pmm.Owner(), ops[i..];
        assert rest[0] == ops[i] && rest[1..] == ops[i + 1..];
        match ops[i] {
          case Map(v, p, a) =>
            NeededForMap(mem, root, rest);
            KiMMap(v, p, a, currentPid, |Needed(mem, root, rest)| - Missing(mem, root, Page(v)) + spare);
            MapSpent(m, before, mem, pmm.Owner(), root, first, currentPid, rest);
          case Unmap(v) =>
            KiUMap(v, |Needed(mem, root, rest)| + spare);
            UnmapSpent(m, before, mem, root, first, currentPid, rest);
        }
        SpentThenSpent(mem0, o, m, before, mem, pmm.Owner(), root, first, currentPid, ops, rest, ops[i + 1..]);
        assert ops[..i + 1][..i] == ops[..i];
      }
      assert ops[..|ops|] == ops && ops[|ops|..] == [];
      NothingNeeded(mem, root);
      AllSpent(mem0, o, mem, pmm.Owner(), root, first, currentPid, ops);
      UserPagesOf(mem0, o, mem, pmm.Owner(), root, first, currentPid, |Needed(mem0, root, ops)|);
      HardwareAfter(mem0, o, mem, pmm.Owner(), root, first, currentPid, |Needed(mem0, root, ops)|);
    }
  }
}
