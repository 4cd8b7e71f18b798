/** The kernel heap (kernel/src/Heap/Heap.c).

    `HeapBlocks` describes the heap as the list of its blocks; `KernelHeap.Heap` is the chain of
    headers in memory, and its methods are proved against that list. */
module HeapBlocks {
  const HEADER: nat := 24

  datatype Block = Block(addr: nat, size: nat, used: bool)

  function Stop(b: Block): nat {
    b.addr + HEADER + b.size
  }

  /** The blocks cover from .. to without gap or overlap. */
  ghost predicate Tiles(bs: seq<Block>, from: nat, to: nat) {
    if bs == [] then from == to
    else bs[0].addr == from && Tiles(bs[1..], Stop(bs[0]), to)
  }

  ghost predicate NoTwoFree(bs: seq<Block>) {
    forall i :: 0 <= i < |bs| - 1 ==> bs[i].used || bs[i + 1].used
  }

  /** The state of a heap between two calls. */
  ghost predicate IsHeap(bs: seq<Block>, from: nat, to: nat) {
    bs != [] && Tiles(bs, from, to) && NoTwoFree(bs)
  }

  /** The blocks handed out, in address order. */
  ghost function Live(bs: seq<Block>): seq<Block> {
    if bs == [] then [] else (if bs[0].used then [bs[0]] else []) + Live(bs[1..])
  }

  ghost function Size(bs: seq<Block>): nat {
    if bs == [] then 0 else HEADER + bs[0].size + Size(bs[1..])
  }

  function Fresh(from: nat, size: nat): seq<Block>
    requires size >= HEADER
  {
    [Block(from, size - HEADER, false)]
  }

  // ---------- tiling ----------

  lemma {:induction false} TilesSum(bs: seq<Block>, from: nat, to: nat)
    requires Tiles(bs, from, to)
    ensures from + Size(bs) == to
    decreases |bs|
  {
    if bs != [] {
      TilesSum(bs[1..], Stop(bs[0]), to);
    }
  }

  lemma {:induction false} TilesAppend(a: seq<Block>, b: seq<Block>, from: nat, to: nat)
    ensures Tiles(a + b, from, to) <==> Tiles(a, from, from + Size(a)) && Tiles(b, from + Size(a), to)
    decreases |a|
  {
    if a == [] {
      assert a + b == b;
    } else {
      assert (a + b)[1..] == a[1..] + b;
      TilesAppend(a[1..], b, Stop(a[0]), to);
    }
  }

  lemma {:induction false} LiveAppend(a: seq<Block>, b: seq<Block>)
    ensures Live(a + b) == Live(a) + Live(b)
    decreases |a|
  {
    if a == [] {
      assert a + b == b;
    } else {
      LiveAppend(a[1..], b);
      var head := if a[0].used then [a[0]] else [];
      assert (a + b)[1..] == a[1..] + b;
      assert Live(a + b) == head + (Live(a[1..]) + Live(b));
      assert Live(a) == head + Live(a[1..]);
    }
  }

  lemma {:induction false} TilesBounds(bs: seq<Block>, from: nat, to: nat, i: nat)
    requires Tiles(bs, from, to) && i < |bs|
    ensures from <= bs[i].addr && Stop(bs[i]) <= to
    ensures if i + 1 < |bs| then bs[i + 1].addr == Stop(bs[i]) else Stop(bs[i]) == to
    decreases |bs|
  {
    if i > 0 {
      TilesBounds(bs[1..], Stop(bs[0]), to, i - 1);
    } else {
      TilesSum(bs[1..], Stop(bs[0]), to);
      if |bs| == 1 {
        assert bs[1..] == [];
      }
    }
  }

  /** Blocks of a tiling follow each other: each ends before any later one begins. */
  lemma {:induction false} TilesApart(bs: seq<Block>, from: nat, to: nat, i: nat, j: nat)
    requires Tiles(bs, from, to) && i < j < |bs|
    ensures from <= bs[i].addr && Stop(bs[i]) <= bs[j].addr && Stop(bs[j]) <= to
    decreases |bs|
  {
    TilesBounds(bs[1..], Stop(bs[0]), to, j - 1);
    if i > 0 {
      TilesApart(bs[1..], Stop(bs[0]), to, i - 1, j - 1);
    }
  }

  /** No payload overlaps another payload or any header, its own included. */
  lemma PayloadsAreApart(bs: seq<Block>, from: nat, to: nat, i: nat, j: nat)
    requires Tiles(bs, from, to) && i < |bs| && j < |bs|
    ensures bs[j].addr + HEADER <= bs[i].addr + HEADER || Stop(bs[i]) <= bs[j].addr
    ensures i != j ==> Stop(bs[i]) <= bs[j].addr + HEADER || Stop(bs[j]) <= bs[i].addr + HEADER
  {
    if i < j {
      TilesApart(bs, from, to, i, j);
    } else if j < i {
      TilesApart(bs, from, to, j, i);
    }
  }

  // ---------- the canonical form ----------

  lemma FreeHeadSize(a: seq<Block>, from: nat, to: nat)
    requires a != [] && Tiles(a, from, to) && NoTwoFree(a) && !a[0].used
    ensures Stop(a[0]) == if Live(a) == [] then to else Live(a)[0].addr
  {
    if |a| == 1 {
      assert a[1..] == [];
    } else {
      assert a[1].used;
      assert Live(a[1..])[0] == a[1];
    }
  }

  lemma UsedHeadIsLive(a: seq<Block>, from: nat, to: nat)
    requires a != [] && Tiles(a, from, to) && a[0].used
    ensures Live(a) != [] && Live(a)[0] == a[0] && Live(a)[0].addr == from
  {
  }

  /** The first block follows from where the heap starts, where it ends and what it hands out. */
  lemma HeadFacts(a: seq<Block>, from: nat, to: nat)
    requires a != [] && Tiles(a, from, to) && NoTwoFree(a)
    ensures a[0].addr == from
    ensures a[0].used <==> Live(a) != [] && Live(a)[0].addr == from
    ensures a[0].used ==> Live(a)[0] == a[0]
    ensures !a[0].used ==> Stop(a[0]) == if Live(a) == [] then to else Live(a)[0].addr
  {
    if a[0].used {
      UsedHeadIsLive(a, from, to);
    } else {
      FreeHeadSize(a, from, to);
    }
  }

  lemma SameFirstBlock(a: seq<Block>, b: seq<Block>, from: nat, to: nat)
    requires a != [] && b != []
    requires Tiles(a, from, to) && Tiles(b, from, to) && NoTwoFree(a) && NoTwoFree(b) && Live(a) == Live(b)
    ensures a[0] == b[0] && Live(a[1..]) == Live(b[1..])
  {
    hide Tiles, NoTwoFree;
    HeadFacts(a, from, to);
    HeadFacts(b, from, to);
    assert Live(a[1..]) == if a[0].used then Live(a)[1..] else Live(a);
    assert Live(b[1..]) == if b[0].used then Live(b)[1..] else Live(b);
  }

  /** Two heaps over the same memory that hand out the same blocks are the same heap: no history
      of splits and merges is left behind. */
  lemma {:induction false} HeapIsDeterminedByItsLiveBlocks(a: seq<Block>, b: seq<Block>, from: nat, to: nat)
    requires Tiles(a, from, to) && Tiles(b, from, to) && NoTwoFree(a) && NoTwoFree(b) && Live(a) == Live(b)
    ensures a == b
    decreases |a|
  {
    if a == [] || b == [] {
      TilesSum(a, from, to);
      TilesSum(b, from, to);
    } else {
      SameFirstBlock(a, b, from, to);
      HeapIsDeterminedByItsLiveBlocks(a[1..], b[1..], Stop(a[0]), to);
      assert a == [a[0]] + a[1..] && b == [b[0]] + b[1..];
    }
  }

  /** With nothing handed out the heap is the one block InitHeap made. */
  lemma EmptyHeapIsFresh(bs: seq<Block>, from: nat, size: nat)
    requires size >= HEADER && IsHeap(bs, from, from + size) && Live(bs) == []
    ensures bs == Fresh(from, size)
  {
    var f := Fresh(from, size);
    assert f[1..] == [] && Stop(f[0]) == from + size;
    HeapIsDeterminedByItsLiveBlocks(bs, f, from, from + size);
  }

  // ---------- kalloc ----------

  predicate CanHold(b: Block, count: nat) {
    !b.used && b.size >= count
  }

  /** Index of the first free block that can hold `count` bytes, or |bs|. */
  function FirstFit(bs: seq<Block>, count: nat, i: nat): (k: nat)
    requires i <= |bs|
    ensures i <= k <= |bs|
    ensures forall j :: i <= j < k ==> !CanHold(bs[j], count)
    ensures k < |bs| ==> CanHold(bs[k], count)
    decreases |bs| - i
  {
    if i == |bs| || CanHold(bs[i], count) then i else FirstFit(bs, count, i + 1)
  }

  /** Taking block k: the rest is split off if at least one byte remains behind its header. */
  function Take(bs: seq<Block>, k: nat, count: nat): seq<Block>
    requires k < |bs| && CanHold(bs[k], count)
  {
    var b := bs[k];
    if b.size >= count + HEADER + 1 then
      bs[..k]
      + [Block(b.addr, count, true), Block(b.addr + HEADER + count, b.size - count - HEADER, false)]
      + bs[k + 1..]
    else
      bs[k := b.(used := true)]
  }

  ghost function TakenPieces(b: Block, count: nat): seq<Block> {
    if b.size >= count + HEADER + 1 then
      [Block(b.addr, count, true), Block(b.addr + HEADER + count, b.size - count - HEADER, false)]
    else
      [b.(used := true)]
  }

  lemma SplitAt(bs: seq<Block>, k: nat)
    requires k < |bs|
    ensures bs == bs[..k] + ([bs[k]] + bs[k + 1..])
  {
  }

  lemma TakeIsReplace(bs: seq<Block>, k: nat, count: nat)
    requires k < |bs| && CanHold(bs[k], count)
    ensures Take(bs, k, count) == bs[..k] + (TakenPieces(bs[k], count) + bs[k + 1..])
  {
  }

  lemma OneBlock(x: Block)
    ensures Tiles([x], x.addr, Stop(x)) && Size([x]) == HEADER + x.size && Live([x]) == if x.used then [x] else []
  {
    assert [x][1..] == [];
  }

  lemma TwoBlocks(x: Block, y: Block)
    requires y.addr == Stop(x)
    ensures Tiles([x, y], x.addr, Stop(y)) && Size([x, y]) == Size([x]) + Size([y])
    ensures Live([x, y]) == Live([x]) + Live([y])
  {
    OneBlock(x);
    OneBlock(y);
    assert [x, y][1..] == [y];
  }

  lemma TakenBlock(bs: seq<Block>, k: nat, count: nat)
    requires k < |bs| && CanHold(bs[k], count)
    ensures var r := Take(bs, k, count); var b := r[k];
      && |r| >= |bs| && b == TakenPieces(bs[k], count)[0]
      && b.addr == bs[k].addr && b.used && count <= b.size <= count + HEADER
  {
  }

  /** In bytes: a block with at least 25 bytes to spare is cut to what was asked for, and the rest, behind a header of
      24
      bytes of its own, becomes a free block; any other block is handed out whole. */
  lemma TakeCutsExactly(bs: seq<Block>, k: nat, count: nat)
    requires k < |bs| && !bs[k].used && bs[k].size >= count
    ensures var r := Take(bs, k, count); var b := bs[k];
      && r[..k] == bs[..k]
      && if b.size - count >= 25 then
           && |r| == |bs| + 1 && r[k] == Block(b.addr, count, true)
           && r[k + 1] == Block(b.addr + 24 + count, b.size - count - 24, false) && r[k + 2..] == bs[k + 1..]
         else
           && |r| == |bs| && r[k] == Block(b.addr, b.size, true) && r[k + 1..] == bs[k + 1..]
  {
    var r, b := Take(bs, k, count), bs[k];
    if b.size - count >= 25 {
      var pieces := [Block(b.addr, count, true), Block(b.addr + 24 + count, b.size - count - 24, false)];
      assert r == bs[..k] + pieces + bs[k + 1..];
      assert |bs[..k] + pieces| == k + 2;
    }
  }

  /** The first free block that is large enough. */
  lemma FirstFitIs(bs: seq<Block>, count: nat)
    ensures var k := FirstFit(bs, count, 0);
      && (forall j :: 0 <= j < k ==> bs[j].used || bs[j].size < count)
      && (k < |bs| ==> !bs[k].used && bs[k].size >= count)
  {
    var k := FirstFit(bs, count, 0);
    assert forall j :: 0 <= j < k ==> !CanHold(bs[j], count);
  }

  lemma EndsOfOneBlock(b: Block, x: nat, y: nat)
    requires Tiles([b], x, y)
    ensures x == b.addr && y == Stop(b)
  {
    assert [b][1..] == [];
  }

  lemma PiecesTile(b: Block, count: nat)
    requires CanHold(b, count)
    ensures forall x: nat, y: nat :: Tiles([b], x, y) ==> Tiles(TakenPieces(b, count), x, y)
    ensures Size(TakenPieces(b, count)) == HEADER + b.size == Size([b])
    ensures Live([b]) == [] && Live(TakenPieces(b, count)) == [TakenPieces(b, count)[0]]
  {
    hide Tiles, Size, Live;
    var p := TakenPieces(b, count);
    OneBlock(b);
    OneBlock(p[0]);
    if |p| == 2 {
      OneBlock(p[1]);
      TwoBlocks(p[0], p[1]);
      assert p == [p[0], p[1]];
    } else {
      assert p == [p[0]];
    }
    forall x: nat, y: nat | Tiles([b], x, y)
      ensures x == b.addr && y == Stop(b)
    {
      EndsOfOneBlock(b, x, y);
    }
  }

  /** Replacing the middle of a tiling by pieces that fill the same space keeps the tiling. */
  lemma TilesReplace(p: seq<Block>, m: seq<Block>, m': seq<Block>, s: seq<Block>, from: nat, to: nat)
    requires Tiles(p + (m + s), from, to) && Size(m) == Size(m')
    requires forall x: nat, y: nat :: Tiles(m, x, y) ==> Tiles(m', x, y)
    ensures Tiles(p + (m' + s), from, to)
  {
    hide Tiles;
    TilesAppend(p, m + s, from, to);
    TilesAppend(m, s, from + Size(p), to);
    TilesAppend(m', s, from + Size(p), to);
    TilesAppend(p, m' + s, from, to);
  }

  lemma TakeKeepsNoTwoFree(bs: seq<Block>, k: nat, count: nat)
    requires NoTwoFree(bs) && k < |bs| && CanHold(bs[k], count)
    ensures NoTwoFree(Take(bs, k, count))
  {
    var r := Take(bs, k, count);
    assert k + 1 < |bs| ==> bs[k + 1].used;
    if |r| > |bs| {
      assert forall i :: k + 2 <= i < |r| ==> r[i] == bs[i - 1];
    }
  }

  /** kalloc hands out one more block, at least as large as asked, and moves or resizes no other. */
  lemma TakeKeepsHeap(bs: seq<Block>, k: nat, count: nat, from: nat, to: nat)
    requires IsHeap(bs, from, to) && k < |bs| && CanHold(bs[k], count)
    ensures IsHeap(Take(bs, k, count), from, to)
    ensures Live(Take(bs, k, count)) == Live(bs[..k]) + [Take(bs, k, count)[k]] + Live(bs[k + 1..])
    ensures Live(bs) == Live(bs[..k]) + Live(bs[k + 1..])
    ensures var b := Take(bs, k, count)[k]; b.addr == bs[k].addr && b.used && count <= b.size <= count + HEADER
  {
    hide Tiles, NoTwoFree, Live, Size, Take, TakenPieces;
    var p, s := bs[..k], bs[k + 1..];
    var m, m' := [bs[k]], TakenPieces(bs[k], count);
    TakenBlock(bs, k, count);
    SplitAt(bs, k);
    TakeIsReplace(bs, k, count);
    PiecesTile(bs[k], count);
    TilesReplace(p, m, m', s, from, to);
    LiveAppend(p, m + s);
    LiveAppend(m, s);
    LiveAppend(p, m' + s);
    LiveAppend(m', s);
    TakeKeepsNoTwoFree(bs, k, count);
  }

  // ---------- kfree ----------

  function Merge(bs: seq<Block>, i: nat): seq<Block>
    requires i + 1 < |bs|
  {
    bs[..i] + [Block(bs[i].addr, bs[i].size + HEADER + bs[i + 1].size, bs[i].used)] + bs[i + 2..]
  }

  /** The coalescing pass of kfree from block i on. */
  function Coalesce(bs: seq<Block>, i: nat): (r: seq<Block>)
    requires i <= |bs|
    ensures bs != [] ==> r != []
    decreases |bs| - i
  {
    if i + 1 >= |bs| then bs
    else if !bs[i].used && !bs[i + 1].used then Coalesce(Merge(bs, i), i)
    else Coalesce(bs, i + 1)
  }

  lemma MergedPieces(a: Block, b: Block)
    requires !a.used && !b.used
    ensures var m := [Block(a.addr, a.size + HEADER + b.size, a.used)];
      && Size(m) == Size([a, b]) && Live(m) == [] == Live([a, b])
      && forall x: nat, y: nat :: Tiles([a, b], x, y) ==> Tiles(m, x, y)
  {
    var m := [Block(a.addr, a.size + HEADER + b.size, a.used)];
    assert [a, b][1..] == [b] && [b][1..] == [] && m[1..] == [];
  }

  lemma MergeKeepsTiling(bs: seq<Block>, i: nat, from: nat, to: nat)
    requires i + 1 < |bs| && !bs[i].used && !bs[i + 1].used && Tiles(bs, from, to)
    ensures Tiles(Merge(bs, i), from, to) && Live(Merge(bs, i)) == Live(bs)
  {
    var p, s := bs[..i], bs[i + 2..];
    var m, m' := [bs[i], bs[i + 1]], [Block(bs[i].addr, bs[i].size + HEADER + bs[i + 1].size, bs[i].used)];
    assert bs == p + (m + s) && Merge(bs, i) == p + (m' + s);
    MergedPieces(bs[i], bs[i + 1]);
    hide Tiles, Live, Size;
    TilesReplace(p, m, m', s, from, to);
    LiveAppend(p, m + s);
    LiveAppend(m, s);
    LiveAppend(p, m' + s);
    LiveAppend(m', s);
  }

  /** The pass keeps the tiling and what is handed out, and leaves no two free neighbours. */
  lemma {:induction false} CoalesceMakesHeap(bs: seq<Block>, i: nat, from: nat, to: nat)
    requires i <= |bs| && Tiles(bs, from, to)
    requires forall k :: 0 <= k < i && k + 1 < |bs| ==> bs[k].used || bs[k + 1].used
    ensures Tiles(Coalesce(bs, i), from, to) && Live(Coalesce(bs, i)) == Live(bs) && NoTwoFree(Coalesce(bs, i))
    decreases |bs| - i
  {
    hide Tiles, Live;
    if i + 1 < |bs| {
      if !bs[i].used && !bs[i + 1].used {
        MergeKeepsTiling(bs, i, from, to);
        CoalesceMakesHeap(Merge(bs, i), i, from, to);
      } else {
        CoalesceMakesHeap(bs, i + 1, from, to);
      }
    }
  }

  function Release(bs: seq<Block>, k: nat): seq<Block>
    requires k < |bs|
  {
    Coalesce(bs[k := bs[k].(used := false)], 0)
  }

  lemma FreedPieces(b: Block)
    requires b.used
    ensures var m := [b.(used := false)];
      && Size(m) == Size([b]) && Live(m) == [] && Live([b]) == [b]
      && forall x: nat, y: nat :: Tiles([b], x, y) ==> Tiles(m, x, y)
  {
    var m := [b.(used := false)];
    assert [b][1..] == [] && m[1..] == [];
  }

  /** kfree takes the block off the list of blocks handed out and moves or resizes no other. */
  lemma ReleaseKeepsHeap(bs: seq<Block>, k: nat, from: nat, to: nat)
    requires IsHeap(bs, from, to) && k < |bs| && bs[k].used
    ensures IsHeap(Release(bs, k), from, to)
    ensures Live(bs) == Live(bs[..k]) + [bs[k]] + Live(bs[k + 1..])
    ensures Live(Release(bs, k)) == Live(bs[..k]) + Live(bs[k + 1..])
  {
    hide Tiles, Live, Coalesce, Size;
    var p, s := bs[..k], bs[k + 1..];
    var freed := bs[k].(used := false);
    var m, m' := [bs[k]], [freed];
    SplitAt(bs, k);
    assert bs[k := freed] == p + (m' + s);
    FreedPieces(bs[k]);
    TilesReplace(p, m, m', s, from, to);
    LiveAppend(p, m + s);
    LiveAppend(m, s);
    LiveAppend(p, m' + s);
    LiveAppend(m', s);
    CoalesceMakesHeap(bs[k := freed], 0, from, to);
  }

  lemma TakeAround(bs: seq<Block>, k: nat, count: nat, from: nat, to: nat)
    requires k < |bs| && CanHold(bs[k], count)
    ensures Take(bs, k, count)[..k] == bs[..k]
    ensures Live(Take(bs, k, count)[k + 1..]) == Live(bs[k + 1..])
  {
    var t := Take(bs, k, count);
    if |t| > |bs| {
      assert t[k + 1..] == [t[k + 1]] + bs[k + 1..];
      assert t[k + 1..][1..] == bs[k + 1..];
    } else {
      assert t[k + 1..] == bs[k + 1..];
    }
  }

  /** Freeing what was just allocated restores the identical block list, split or not. */
  lemma FreeUndoesAlloc(bs: seq<Block>, count: nat, from: nat, to: nat)
    requires IsHeap(bs, from, to) && FirstFit(bs, count, 0) < |bs|
    ensures var k := FirstFit(bs, count, 0); Release(Take(bs, k, count), k) == bs
  {
    var k := FirstFit(bs, count, 0);
    var t := Take(bs, k, count);
    hide Tiles, Live, NoTwoFree, Coalesce;
    TakeKeepsHeap(bs, k, count, from, to);
    ReleaseKeepsHeap(t, k, from, to);
    TakeAround(bs, k, count, from, to);
    HeapIsDeterminedByItsLiveBlocks(Release(t, k), bs, from, to);
  }

  // ---------- whole runs ----------

  datatype Op = Alloc(count: nat) | Free(ptr: nat)

  /** Index of the block whose payload starts at `ptr`, or |bs|. */
  function IndexOf(bs: seq<Block>, ptr: nat, i: nat): (k: nat)
    requires i <= |bs|
    ensures i <= k <= |bs|
    ensures forall j :: i <= j < k ==> bs[j].addr + HEADER != ptr
    ensures k < |bs| ==> bs[k].addr + HEADER == ptr
    decreases |bs| - i
  {
    if i == |bs| || bs[i].addr + HEADER == ptr then i else IndexOf(bs, ptr, i + 1)
  }

  predicate IsLivePtr(bs: seq<Block>, ptr: nat) {
    IndexOf(bs, ptr, 0) < |bs| && bs[IndexOf(bs, ptr, 0)].used
  }

  /** kfree demands a pointer that is handed out (or NULL, which does nothing). */
  predicate Allowed(bs: seq<Block>, op: Op) {
    op.Free? ==> op.ptr == 0 || IsLivePtr(bs, op.ptr)
  }

  function Apply(bs: seq<Block>, op: Op): seq<Block>
    requires Allowed(bs, op)
  {
    match op
    case Alloc(count) =>
      var k := FirstFit(bs, count, 0);
      if k < |bs| then Take(bs, k, count) else bs
    case Free(ptr) =>
      if ptr == 0 then bs else Release(bs, IndexOf(bs, ptr, 0))
  }

  ghost predicate AllowedRun(bs: seq<Block>, ops: seq<Op>)
    decreases |ops|
  {
    ops == [] || (Allowed(bs, ops[0]) && AllowedRun(Apply(bs, ops[0]), ops[1..]))
  }

  ghost function Run(bs: seq<Block>, ops: seq<Op>): seq<Block>
    requires AllowedRun(bs, ops)
    decreases |ops|
  {
    if ops == [] then bs else Run(Apply(bs, ops[0]), ops[1..])
  }

  lemma ApplyKeepsHeap(bs: seq<Block>, op: Op, from: nat, to: nat)
    requires IsHeap(bs, from, to) && Allowed(bs, op)
    ensures IsHeap(Apply(bs, op), from, to)
  {
    hide Tiles, NoTwoFree, Live;
    match op {
      case Alloc(count) =>
        if FirstFit(bs, count, 0) < |bs| {
          TakeKeepsHeap(bs, FirstFit(bs, count, 0), count, from, to);
        }
      case Free(ptr) =>
        if ptr != 0 {
          ReleaseKeepsHeap(bs, IndexOf(bs, ptr, 0), from, to);
        }
    }
  }

  /** Over every run the blocks tile the heap exactly and no two neighbours are free. */
  lemma {:induction false} RunKeepsHeap(bs: seq<Block>, ops: seq<Op>, from: nat, to: nat)
    requires IsHeap(bs, from, to) && AllowedRun(bs, ops)
    ensures IsHeap(Run(bs, ops), from, to)
    ensures Size(Run(bs, ops)) == to - from
    decreases |ops|
  {
    if ops == [] {
      TilesSum(bs, from, to);
    } else {
      ApplyKeepsHeap(bs, ops[0], from, to);
      RunKeepsHeap(Apply(bs, ops[0]), ops[1..], from, to);
    }
  }

  /** Two runs that end with the same blocks handed out end in the same heap; in particular a run
      that has freed everything, in any order, ends in the single initial block. */
  lemma RunsAreConfluent(from: nat, size: nat, ops: seq<Op>, ops': seq<Op>)
    requires size >= HEADER && AllowedRun(Fresh(from, size), ops) && AllowedRun(Fresh(from, size), ops')
    requires Live(Run(Fresh(from, size), ops)) == Live(Run(Fresh(from, size), ops'))
    ensures Run(Fresh(from, size), ops) == Run(Fresh(from, size), ops')
    ensures Live(Run(Fresh(from, size), ops)) == [] ==> Run(Fresh(from, size), ops) == Fresh(from, size)
  {
    var f := Fresh(from, size);
    assert f[1..] == [];
    assert IsHeap(f, from, from + size);
    RunKeepsHeap(f, ops, from, from + size);
    RunKeepsHeap(f, ops', from, from + size);
    HeapIsDeterminedByItsLiveBlocks(Run(f, ops), Run(f, ops'), from, from + size);
    if Live(Run(f, ops)) == [] {
      EmptyHeapIsFresh(Run(f, ops), from, size);
    }
  }

  lemma {:induction false} LiveMembers(bs: seq<Block>, b: Block)
    ensures b in Live(bs) <==> b in bs && b.used
    decreases |bs|
  {
    if bs != [] {
      LiveMembers(bs[1..], b);
      assert bs == [bs[0]] + bs[1..];
    }
  }

  lemma LiveBlockOutlasts(bs: seq<Block>, op: Op, b: Block, from: nat, to: nat)
    requires IsHeap(bs, from, to) && Allowed(bs, op)
    requires b in bs && b.used && op != Free(b.addr + HEADER)
    ensures b in Apply(bs, op)
  {
    hide Tiles, NoTwoFree, Coalesce, Live;
    LiveMembers(bs, b);
    LiveMembers(Apply(bs, op), b);
    match op {
      case Alloc(count) =>
        var k := FirstFit(bs, count, 0);
        if k < |bs| {
          TakeKeepsHeap(bs, k, count, from, to);
        }
      case Free(ptr) =>
        if ptr != 0 {
          ReleaseKeepsHeap(bs, IndexOf(bs, ptr, 0), from, to);
        }
    }
  }

  lemma RunUnfold(bs: seq<Block>, ops: seq<Op>)
    requires AllowedRun(bs, ops) && ops != []
    ensures Allowed(bs, ops[0]) && AllowedRun(Apply(bs, ops[0]), ops[1..])
    ensures Run(bs, ops) == Run(Apply(bs, ops[0]), ops[1..])
  {
    hide Allowed, Apply;
  }

  /** A block stays where it is, with its size, over every run that does not free it. */
  lemma {:induction false} LiveBlockStays(bs: seq<Block>, ops: seq<Op>, b: Block, from: nat, to: nat)
    requires IsHeap(bs, from, to) && AllowedRun(bs, ops)
    requires b in bs && b.used && Free(b.addr + HEADER) !in ops
    ensures b in Run(bs, ops)
    decreases |ops|
  {
    hide IsHeap, Allowed, Apply;
    if ops != [] {
      RunUnfold(bs, ops);
      assert ops[0] in ops;
      ApplyKeepsHeap(bs, ops[0], from, to);
      LiveBlockOutlasts(bs, ops[0], b, from, to);
      LiveBlockStays(Apply(bs, ops[0]), ops[1..], b, from, to);
    }
  }
}

module KernelHeap {
  import opened Words
  import opened HeapBlocks

  /** A header as it lies in memory; `next` is an address, 0 for NULL. */
  datatype Header = Header(size: nat, used: bool, next: nat)

  type Memory = map<nat, Header>

  ghost function NextOf(bs: seq<Block>, i: nat): nat
    requires i < |bs|
  {
    if i + 1 < |bs| then bs[i + 1].addr else 0
  }

  /** The memory holds the chain of headers of these blocks. */
  ghost predicate Chained(mem: Memory, first: nat, bs: seq<Block>) {
    && bs != [] && first == bs[0].addr
    && forall i :: 0 <= i < |bs| ==>
         bs[i].addr in mem && mem[bs[i].addr] == Header(bs[i].size, bs[i].used, NextOf(bs, i))
  }

  lemma HeapTiles(bs: seq<Block>, from: nat, to: nat)
    requires IsHeap(bs, from, to)
    ensures Tiles(bs, from, to)
  {
  }

  lemma FitStep(bs: seq<Block>, count: nat, i: nat)
    requires i < |bs|
    ensures FirstFit(bs, count, i) == if CanHold(bs[i], count) then i else FirstFit(bs, count, i + 1)
  {
  }

  /** The search fails exactly when no free block is large enough. */
  lemma NullIffNothingFits(bs: seq<Block>, count: nat)
    ensures FirstFit(bs, count, 0) == |bs| <==> forall b :: b in bs ==> !CanHold(b, count)
    ensures FirstFit(bs, count, |bs|) == |bs|
  {
    if FirstFit(bs, count, 0) < |bs| {
      assert bs[FirstFit(bs, count, 0)] in bs;
    }
  }

  lemma ChainStarts(mem: Memory, first: nat, bs: seq<Block>, from: nat, to: nat)
    requires Chained(mem, first, bs) && Tiles(bs, from, to)
    ensures bs != [] && first == bs[0].addr == from
  {
  }

  /** What the header of block i holds; its address is within the heap, so not NULL. */
  lemma ChainAt(mem: Memory, first: nat, bs: seq<Block>, i: nat, from: nat, to: nat)
    requires 0 < from && Chained(mem, first, bs) && Tiles(bs, from, to)
    ensures i < |bs| ==>
      && bs[i].addr in mem && mem[bs[i].addr] == Header(bs[i].size, bs[i].used, NextOf(bs, i))
      && from <= bs[i].addr && Stop(bs[i]) <= to
      && (i + 1 < |bs| ==> bs[i + 1].addr != 0)
  {
    if i < |bs| {
      TilesBounds(bs, from, to, i);
    }
    if i + 1 < |bs| {
      TilesBounds(bs, from, to, i + 1);
    }
  }

  lemma CoalesceStep(bs: seq<Block>, i: nat)
    requires i < |bs|
    ensures Coalesce(bs, i) ==
      if i + 1 == |bs| then bs
      else if !bs[i].used && !bs[i + 1].used then Coalesce(Merge(bs, i), i)
      else Coalesce(bs, i + 1)
    ensures i + 1 < |bs| && !bs[i].used && !bs[i + 1].used ==> i < |Merge(bs, i)| && Merge(bs, i)[i].addr == bs[i].addr
    ensures i + 1 < |bs| ==> |Merge(bs, i)| == |bs| - 1
  {
  }

  ghost function TakenMemory(mem: Memory, bs: seq<Block>, k: nat, count: nat): Memory
    requires k < |bs| && CanHold(bs[k], count)
  {
    var b := bs[k];
    if b.size >= count + HEADER + 1 then
      mem[b.addr + HEADER + count := Header(b.size - count - HEADER, false, NextOf(bs, k))]
         [b.addr := Header(count, true, b.addr + HEADER + count)]
    else
      mem[b.addr := Header(b.size, true, NextOf(bs, k))]
  }

  /** Different blocks have different addresses, and no header lies inside another block. */
  lemma HeadersApart(bs: seq<Block>, from: nat, to: nat, k: nat)
    requires Tiles(bs, from, to) && k < |bs|
    ensures forall i :: 0 <= i < |bs| && i != k ==> bs[i].addr < bs[k].addr || Stop(bs[k]) <= bs[i].addr
  {
    forall i | 0 <= i < |bs| && i != k
      ensures bs[i].addr < bs[k].addr || Stop(bs[k]) <= bs[i].addr
    {
      if i < k {
        TilesApart(bs, from, to, i, k);
      } else {
        TilesApart(bs, from, to, k, i);
      }
    }
  }

  lemma StoreTaken(mem: Memory, first: nat, bs: seq<Block>, k: nat, count: nat, from: nat, to: nat)
    requires Chained(mem, first, bs) && Tiles(bs, from, to) && k < |bs| && CanHold(bs[k], count)
    ensures Chained(TakenMemory(mem, bs, k, count), first, Take(bs, k, count))
  {
    hide Tiles;
    HeadersApart(bs, from, to, k);
    var r, m := Take(bs, k, count), TakenMemory(mem, bs, k, count);
    if bs[k].size >= count + HEADER + 1 {
      forall i | 0 <= i < |r|
        ensures r[i].addr in m && m[r[i].addr] == Header(r[i].size, r[i].used, NextOf(r, i))
      {
        var j := if i <= k then i else i - 1;
        if i != k && i != k + 1 {
          assert r[i] == bs[j];
        }
      }
    }
  }

  lemma TakenIsFound(bs: seq<Block>, k: nat, count: nat, from: nat, to: nat)
    requires Tiles(bs, from, to) && k < |bs| && CanHold(bs[k], count)
    ensures var r := Take(bs, k, count); var p := bs[k].addr + HEADER;
      IndexOf(r, p, 0) == k && r[k].used && count <= r[k].size && IsLivePtr(r, p)
  {
    hide Tiles;
    HeadersApart(bs, from, to, k);
    var r, p := Take(bs, k, count), bs[k].addr + HEADER;
    assert forall i :: 0 <= i < k ==> r[i] == bs[i];
    assert r[k].addr == bs[k].addr;
    var f := IndexOf(r, p, 0);
    assert f <= k;
  }

  lemma {:induction false} RelabelKeepsTiling(bs: seq<Block>, k: nat, from: nat, to: nat)
    requires Tiles(bs, from, to) && k < |bs|
    ensures Tiles(bs[k := bs[k].(used := false)], from, to)
    decreases |bs|
  {
    var r := bs[k := bs[k].(used := false)];
    if k == 0 {
      assert r[1..] == bs[1..];
    } else {
      assert r[1..] == bs[1..][k - 1 := bs[k].(used := false)];
      RelabelKeepsTiling(bs[1..], k - 1, Stop(bs[0]), to);
    }
  }

  lemma StoreFreed(mem: Memory, first: nat, bs: seq<Block>, k: nat, from: nat, to: nat)
    requires Chained(mem, first, bs) && Tiles(bs, from, to) && k < |bs|
    ensures bs[k].addr in mem
    ensures var r := bs[k := bs[k].(used := false)];
      && Chained(mem[bs[k].addr := mem[bs[k].addr].(used := false)], first, r)
      && Tiles(r, from, to)
  {
    hide Tiles;
    HeadersApart(bs, from, to, k);
    RelabelKeepsTiling(bs, k, from, to);
  }

  lemma StoreMerged(mem: Memory, first: nat, bs: seq<Block>, i: nat, from: nat, to: nat)
    requires Chained(mem, first, bs) && Tiles(bs, from, to) && i + 1 < |bs| && !bs[i].used && !bs[i + 1].used
    ensures var m := mem[bs[i].addr := Header(bs[i].size + HEADER + bs[i + 1].size, false, NextOf(bs, i + 1))];
      Chained(m, first, Merge(bs, i)) && Tiles(Merge(bs, i), from, to)
  {
    hide Tiles;
    HeadersApart(bs, from, to, i);
    MergeKeepsTiling(bs, i, from, to);
    var r := Merge(bs, i);
    var m := mem[bs[i].addr := Header(bs[i].size + HEADER + bs[i + 1].size, false, NextOf(bs, i + 1))];
    forall j | 0 <= j < |r|
      ensures r[j].addr in m && m[r[j].addr] == Header(r[j].size, r[j].used, NextOf(r, j))
    {
      var x := if j <= i then j else j + 1;
      if j != i {
        assert r[j] == bs[x];
      }
    }
  }

  class Heap {
    var mem: Memory
    var heapStart: nat
    var heapSizeBytes: nat
    var firstBlock: nat
    ghost var blocks: seq<Block>

    ghost predicate Valid()
      reads this
    {
      && 0 < heapStart && heapStart + heapSizeBytes < 0x1_0000_0000_0000_0000
      && IsHeap(blocks, heapStart, heapStart + heapSizeBytes)
      && Chained(mem, firstBlock, blocks)
    }

    constructor InitHeap(start: nat, size: nat)
      requires 0 < start && HEADER <= size && start + size < 0x1_0000_0000_0000_0000
      ensures Valid() && blocks == Fresh(start, size) && heapStart == start && heapSizeBytes == size
    {
      heapStart, heapSizeBytes, firstBlock := start, size, start;
      mem := map[start := Header(size - HEADER, false, 0)];
      blocks := Fresh(start, size);
      new;
      assert blocks[1..] == [] && Stop(blocks[0]) == start + size;
      assert Tiles(blocks[1..], Stop(blocks[0]), start + size);
    }

    /** First fit; NULL exactly when no free block, and so no free extent, can hold `count` bytes. */
    method kalloc(count: u64) returns (ptr: nat)
      requires Valid()
      modifies this`mem, this`blocks
      ensures Valid() && blocks == Apply(old(blocks), Alloc(count))
      ensures ptr == 0 <==> forall b :: b in old(blocks) ==> b.used || b.size < count
      ensures ptr != 0 ==>
        var k := FirstFit(old(blocks), count, 0);
        && k < |old(blocks)| && ptr == old(blocks)[k].addr + 24
        && IsLivePtr(blocks, ptr) && IndexOf(blocks, ptr, 0) == k && count <= blocks[k].size
    {
      hide Tiles, NoTwoFree, Chained, Take, FirstFit, IndexOf, IsLivePtr, IsHeap;
      ghost var heapEnd := heapStart + heapSizeBytes;
      NullIffNothingFits(blocks, count);
      HeapTiles(blocks, heapStart, heapEnd);
      ChainStarts(mem, firstBlock, blocks, heapStart, heapEnd);
      var current := firstBlock;
      ghost var i := 0;
      while current != 0
        invariant Valid() && blocks == old(blocks) && mem == old(mem)
        invariant 0 <= i <= |blocks| && (if i < |blocks| then current == blocks[i].addr != 0 else current == 0)
        invariant FirstFit(blocks, count, 0) == FirstFit(blocks, count, i)
        decreases |blocks| - i
      {
        ChainAt(mem, firstBlock, blocks, i, heapStart, heapEnd);
        FitStep(blocks, count, i);
        var h := mem[current];
        if !h.used && h.size >= count {
          TakeKeepsHeap(blocks, i, count, heapStart, heapEnd);
          TakenIsFound(blocks, i, count, heapStart, heapEnd);
          StoreTaken(mem, firstBlock, blocks, i, count, heapStart, heapEnd);
          if h.size >= (count + HEADER + 1) % 0x1_0000_0000_0000_0000 {
            var split := current + HEADER + count;
            mem := mem[split := Header(h.size - count - HEADER, false, h.next)];
            mem := mem[current := Header(count, h.used, split)];
          }
          mem := mem[current := mem[current].(used := true)];
          assert mem == TakenMemory(old(mem), blocks, i, count);
          blocks := Take(blocks, i, count);
          return current + HEADER;
        }
        current := h.next;
        i := i + 1;
      }
      return 0;
    }

    /** Frees a block that is handed out and merges free neighbours over the whole chain. */
    method kfree(ptr: nat)
      requires Valid() && Allowed(blocks, Free(ptr))
      modifies this`mem, this`blocks
      ensures Valid() && blocks == Apply(old(blocks), Free(ptr))
    {
      hide Tiles, NoTwoFree, Chained, Coalesce, Merge;
      if ptr == 0 {
        return;
      }
      ghost var heapEnd, k := heapStart + heapSizeBytes, IndexOf(blocks, ptr, 0);
      var block := ptr - HEADER;
      ReleaseKeepsHeap(blocks, k, heapStart, heapEnd);
      StoreFreed(mem, firstBlock, blocks, k, heapStart, heapEnd);
      mem := mem[block := mem[block].(used := false)];
      ghost var freed := blocks[k := blocks[k].(used := false)];
      ghost var bs, i := freed, 0;
      ChainStarts(mem, firstBlock, bs, heapStart, heapEnd);
      var current := firstBlock;
      ChainAt(mem, firstBlock, bs, 0, heapStart, heapEnd);
      while current != 0 && mem[current].next != 0
        invariant Tiles(bs, heapStart, heapEnd) && Chained(mem, firstBlock, bs)
        invariant i < |bs| && current == bs[i].addr && current in mem
        invariant Coalesce(bs, i) == Coalesce(freed, 0)
        decreases |bs| - i
      {
        ChainAt(mem, firstBlock, bs, i, heapStart, heapEnd);
        CoalesceStep(bs, i);
        var next := mem[current].next;
        ChainAt(mem, firstBlock, bs, i + 1, heapStart, heapEnd);
        if !mem[current].used && !mem[next].used {
          ghost var before := mem;
          StoreMerged(mem, firstBlock, bs, i, heapStart, heapEnd);
          mem := mem[current := mem[current].(size := mem[current].size + HEADER + mem[next].size)];
          mem := mem[current := mem[current].(next := mem[next].next)];
          assert mem == before[current := Header(bs[i].size + HEADER + bs[i + 1].size, false, NextOf(bs, i + 1))];
          bs := Merge(bs, i);
        } else {
          current := next;
          i := i + 1;
        }
        ChainAt(mem, firstBlock, bs, i, heapStart, heapEnd);
      }
      ChainAt(mem, firstBlock, bs, i, heapStart, heapEnd);
      CoalesceStep(bs, i);
      blocks := bs;
    }
  }
}
