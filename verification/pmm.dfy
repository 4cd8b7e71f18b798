/** The physical frame allocator (kernel/src/PMM/pmm.c).

    `Frames` describes the allocator by its owner sequence: owner[i] is the pid that holds
    frame i, and 0 marks a free frame.  `FrameAllocator.Pmm` is the bitmap, counter and trace
    of the source; its methods are proved against `Frames`. */
module Frames {
  import opened FreeSlots

  type Owners = seq<int>

  /** Frames first .. first + n - 1 become free; indices outside the pool are ignored. */
  function FreeRange(o: Owners, first: int, n: nat): (r: Owners)
    ensures |r| == |o|
    ensures forall k :: 0 <= k < |o| ==> r[k] == if first <= k < first + n then 0 else o[k]
  {
    seq(|o|, k requires 0 <= k < |o| => if first <= k < first + n then 0 else o[k])
  }

  function Reclaim(o: Owners, pid: int): (r: Owners)
    ensures |r| == |o|
    ensures forall k :: 0 <= k < |o| ==> r[k] == if o[k] == pid then 0 else o[k]
  {
    seq(|o|, k requires 0 <= k < |o| => if o[k] == pid then 0 else o[k])
  }

  ghost predicate Consecutive(o: Owners, first: nat, n: nat) {
    first + n <= |o| && forall k :: first <= k < first + n ==> o[k] == 0
  }

  lemma FreeUndoesConsecutiveAlloc(o: Owners, pid: int, n: nat)
    requires pid != 0 && Consecutive(o, Lowest(o), n)
    ensures FreeRange(AllocMany(o, pid, n), Lowest(o), n) == o
  {
    hide AllocMany, CountFree, Lowest;
    var p := Lowest(o);
    CountFreePrefix(o, p, p + n);
    forall k | 0 <= k < |o|
      ensures FreeRange(AllocMany(o, pid, n), p, n)[k] == o[k]
    {
      if !(p <= k < p + n) {
        AllocManyTakesTheLowest(o, pid, n);
        if k >= p + n {
          CountFreePrefix(o, p + n, k);
        }
      }
    }
  }

  lemma ScatteredAllocIsNotUndone(o: Owners, pid: int, n: nat)
    requires pid != 0 && 1 <= n <= CountFree(o) && !Consecutive(o, Lowest(o), n)
    ensures FreeRange(AllocMany(o, pid, n), Lowest(o), n) != o
  {
    var p := Lowest(o);
    CountFreePrefix(o, 0, p);
    CountFreePrefix(o, p, |o|);
    assert o[..|o|] == o;
    assert p + n < |o|;
    CountFreePrefix(o, p, p + n);
    var k := FreeSlotPast(o, p + n, n);
    AllocManyTakesTheLowest(o, pid, n);
    assert FreeRange(AllocMany(o, pid, n), p, n)[k] == pid;
  }

  /** Freeing n frames from the first one handed out undoes an n-frame allocation exactly when
      the n lowest free frames are consecutive. */
  lemma FreeUndoesAllocIffConsecutive(o: Owners, pid: int, n: nat)
    requires pid != 0 && 1 <= n <= CountFree(o)
    ensures FreeRange(AllocMany(o, pid, n), Lowest(o), n) == o <==> Consecutive(o, Lowest(o), n)
  {
    if Consecutive(o, Lowest(o), n) {
      FreeUndoesConsecutiveAlloc(o, pid, n);
    } else {
      ScatteredAllocIsNotUndone(o, pid, n);
    }
  }

  function Held(o: Owners, pid: int): nat {
    if o == [] then 0
    else Held(o[..|o| - 1], pid) + if o[|o| - 1] == pid then 1 else 0
  }

  /** With the owner convention (0 = free), reclaiming a pid leaves no frame with that owner,
      frees exactly the frames it held, and gives the counter back exactly their number. */
  lemma {:induction false} ReclaimCount(o: Owners, pid: int)
    requires pid != 0
    ensures CountFree(Reclaim(o, pid)) == CountFree(o) + Held(o, pid)
    ensures Held(Reclaim(o, pid), pid) == 0
    ensures forall other :: other != pid && other != 0 ==> Held(Reclaim(o, pid), other) == Held(o, other)
    decreases |o|
  {
    if o != [] {
      var m := |o| - 1;
      ReclaimCount(o[..m], pid);
      assert Reclaim(o, pid)[..m] == Reclaim(o[..m], pid);
    }
  }

  // ---------- whole runs ----------

  datatype Call = Take(pid: int, n: nat) | Give(first: int, n: nat) | ReclaimAll(pid: int)

  function Apply(o: Owners, c: Call): (r: Owners)
    ensures |r| == |o|
  {
    match c
    case Take(pid, n) => AllocMany(o, pid, n)
    case Give(first, n) => FreeRange(o, first, n)
    case ReclaimAll(pid) => Reclaim(o, pid)
  }

  function RunAll(o: Owners, calls: seq<Call>): (r: Owners)
    ensures |r| == |o|
    decreases |calls|
  {
    if calls == [] then o else RunAll(Apply(o, calls[0]), calls[1..])
  }

  /** The call gives frame k, held by pid, back. */
  predicate Returns(c: Call, k: nat, pid: int) {
    match c
    case Take(_, _) => false
    case Give(first, n) => first <= k < first + n
    case ReclaimAll(p) => p == pid
  }

  /** A frame stays with its owner over every run of calls that do not return it. */
  lemma {:induction false} OwnedFrameStays(o: Owners, calls: seq<Call>, k: nat)
    requires k < |o| && o[k] != 0
    requires forall c :: c in calls ==> !Returns(c, k, o[k]) && (c.Take? ==> c.pid != 0)
    ensures RunAll(o, calls)[k] == o[k]
    decreases |calls|
  {
    if calls != [] {
      var c := calls[0];
      if c.Take? {
        AllocManyTakesTheLowest(o, c.pid, c.n);
      }
      OwnedFrameStays(Apply(o, c), calls[1..], k);
    }
  }

  /** No two processes are ever given the same frame: a frame that one holds at some point of a run and another
      holds later has been returned in between. */
  lemma FrameChangesHandsOnlyWhenReturned(o: Owners, calls: seq<Call>, k: nat)
    requires k < |o| && o[k] != 0 && RunAll(o, calls)[k] != o[k]
    requires forall c :: c in calls && c.Take? ==> c.pid != 0
    ensures exists c :: c in calls && Returns(c, k, o[k])
  {
    if forall c :: c in calls ==> !Returns(c, k, o[k]) {
      OwnedFrameStays(o, calls, k);
    }
  }
}

module FrameAllocator {
  import opened Words
  import opened FreeSlots
  import opened Frames

  const PAGE_SIZE: nat := 0x1000

  const TRACE_SLOTS: nat := 0x1000

  function TestBit(b: bv8, k: nat): bool
    requires k < 8
  {
    (b >> k) & 1 == 1
  }

  function WithBit(b: bv8, k: nat): bv8
    requires k < 8
  {
    b | (1 << k)
  }

  function WithoutBit(b: bv8, k: nat): bv8
    requires k < 8
  {
    b & !(1 << k)
  }

  lemma NoBitOfZero(j: nat)
    requires j < 8
    ensures !TestBit(0, j)
  {
    if j == 0 {} else if j == 1 {} else if j == 2 {} else if j == 3 {}
    else if j == 4 {} else if j == 5 {} else if j == 6 {} else {}
  }

  lemma BitsOfWithBit(b: bv8, k: nat)
    requires k < 8
    ensures forall j: nat :: j < 8 ==> (TestBit(WithBit(b, k), j) <==> j == k || TestBit(b, j))
  {
    if k == 0 {} else if k == 1 {} else if k == 2 {} else if k == 3 {}
    else if k == 4 {} else if k == 5 {} else if k == 6 {} else {}
  }

  /** Frame k of a byte is its bit k, counted from the least significant one. */
  lemma BitValues(k: nat, j: nat)
    requires k < 8 && j < 8
    ensures WithBit(0, k) == [1, 2, 4, 8, 16, 32, 64, 128][k] && (TestBit(WithBit(0, k), j) <==> j == k)
  {
    BitsOfWithBit(0, k);
    NoBitOfZero(j);
    if k == 0 {} else if k == 1 {} else if k == 2 {} else if k == 3 {}
    else if k == 4 {} else if k == 5 {} else if k == 6 {} else {}
  }

  lemma BitsOfWithoutBit(b: bv8, k: nat)
    requires k < 8
    ensures forall j: nat :: j < 8 ==> (TestBit(WithoutBit(b, k), j) <==> j != k && TestBit(b, j))
  {
    if k == 0 {} else if k == 1 {} else if k == 2 {} else if k == 3 {}
    else if k == 4 {} else if k == 5 {} else if k == 6 {} else {}
  }

  /** Bit `i` of a bitmap stored eight frames to the byte. */
  predicate Marked(bitmap: seq<bv8>, i: nat)
    requires i / 8 < |bitmap|
  {
    TestBit(bitmap[i / 8], i % 8)
  }

  /** `after` is `before` with bit `bit` set to `value` and every other bit as it was. */
  ghost predicate BitChanged(before: seq<bv8>, after: seq<bv8>, bit: nat, value: bool) {
    && |after| == |before|
    && bit / 8 < |before|
    && forall i: nat :: i / 8 < |before| ==> (Marked(after, i) <==> if i == bit then value else Marked(before, i))
  }

  /** The bitmap marks exactly the frames that have an owner. */
  ghost predicate Agree(bitmap: seq<bv8>, o: Owners) {
    && (|o| + 7) / 8 <= |bitmap|
    && forall i: nat :: i < |o| ==> (Marked(bitmap, i) <==> o[i] != 0)
  }

  lemma AgreeAfterChange(before: seq<bv8>, after: seq<bv8>, o: Owners, frame: nat, pid: int)
    requires Agree(before, o) && frame < |o| && BitChanged(before, after, frame, pid != 0)
    ensures Agree(after, o[frame := pid])
  {
    hide TestBit;
  }

  lemma MarkedIffOwned(bitmap: seq<bv8>, o: Owners, frame: nat)
    requires Agree(bitmap, o) && frame < |o|
    ensures frame / 8 < |bitmap| && (TestBit(bitmap[frame / 8], frame % 8) <==> o[frame] != 0)
  {
    assert Marked(bitmap, frame) <==> o[frame] != 0;
  }

  lemma ClearedPoolAgrees(bitmap: seq<bv8>, o: Owners)
    requires (|o| + 7) / 8 <= |bitmap| && forall k :: 0 <= k < (|o| + 7) / 8 ==> bitmap[k] == 0
    requires forall k :: 0 <= k < |o| ==> o[k] == 0
    ensures Agree(bitmap, o) && CountFree(o) == |o|
  {
    CountFreePrefix(o, 0, |o|);
    assert o[..|o|] == o;
    forall k: nat | k < 8
      ensures !TestBit(0, k)
    {
      if k == 0 {} else if k == 1 {} else if k == 2 {} else if k == 3 {}
      else if k == 4 {} else if k == 5 {} else if k == 6 {} else {}
    }
  }

  /** Frame that the i-th of the pointers a page apart points into; negative below the pool. */
  function FrameAt(base: nat, framePtr: u64, i: nat): int {
    ((framePtr + i * PAGE_SIZE) % 0x1_0000_0000_0000_0000 - base) / PAGE_SIZE
  }

  ghost predicate IsHit(base: nat, framePtr: u64, count: nat, k: int) {
    exists i: nat :: i < count && FrameAt(base, framePtr, i) == k
  }

  predicate LiesIn(base: nat, framePtr: u64, i: nat, k: nat) {
    base + k * 0x1000 <= (framePtr + i * 0x1000) % 0x1_0000_0000_0000_0000 < base + (k + 1) * 0x1000
  }

  /** A frame of the pool is hit exactly if one of the pointers, which wrap around at 2^64, lies in its 4096 bytes. */
  lemma HitIsInside(base: nat, framePtr: u64, count: nat, k: nat)
    ensures IsHit(base, framePtr, count, k) <==> exists i: nat :: i < count && LiesIn(base, framePtr, i, k)
  {
    forall i: nat
      ensures FrameAt(base, framePtr, i) == k <==> LiesIn(base, framePtr, i, k)
    {
    }
  }

  lemma FrameAtPointer(base: nat, framePtr: u64, i: nat)
    ensures FrameAt(base, framePtr, i) == ((framePtr + i * PAGE_SIZE) % 0x1_0000_0000_0000_0000 - base) / PAGE_SIZE
  {
  }

  lemma OneMoreHit(base: nat, framePtr: u64, i: nat, k: int)
    ensures IsHit(base, framePtr, i + 1, k) <==> IsHit(base, framePtr, i, k) || FrameAt(base, framePtr, i) == k
  {
    hide FrameAt;
    assert i < i + 1;
  }

  lemma HitsAreARange(base: nat, framePtr: u64, count: nat, k: int)
    requires framePtr + count * PAGE_SIZE <= 0x1_0000_0000_0000_0000
    ensures IsHit(base, framePtr, count, k)
       <==> (framePtr - base) / PAGE_SIZE <= k < (framePtr - base) / PAGE_SIZE + count
  {
    var first := (framePtr - base) / PAGE_SIZE;
    forall i: nat | i < count
      ensures FrameAt(base, framePtr, i) == first + i
    {
      assert (framePtr + i * PAGE_SIZE) % 0x1_0000_0000_0000_0000 == framePtr + i * PAGE_SIZE;
    }
    if first <= k < first + count {
      assert FrameAt(base, framePtr, k - first) == k;
    }
  }

  lemma FreeLiesPastLowest(o: Owners)
    ensures CountFree(o) <= |o| - Lowest(o)
  {
    CountFreePrefix(o, 0, Lowest(o));
    CountFreePrefix(o, Lowest(o), |o|);
    assert o[..|o|] == o;
  }

  lemma FrameOfAddress(base: nat, frame: nat)
    ensures (base + frame * PAGE_SIZE - base) / PAGE_SIZE == frame
  {
  }

  lemma {:induction false} FullPoolStays(o: Owners, pid: int, n: nat)
    requires CountFree(o) == 0
    ensures AllocMany(o, pid, n) == o
    decreases n
  {
    if n > 0 {
      CountFreeZero(o);
      FullPoolStays(o, pid, n - 1);
    }
  }

  /** Once a frame has been taken, frame 0 is not free. */
  lemma LowestIsPositive(o: Owners, pid: int, n: nat)
    requires pid != 0 && n >= 1 && Lowest(o) < |o|
    ensures Lowest(AllocMany(o, pid, n)) > 0
  {
    AllocManyTakesTheLowest(o, pid, n);
    assert o[..0] == [];
    var r := AllocMany(o, pid, n);
    assert r[0] != 0;
  }

  class Pmm {
    var bitmap: array<bv8>
    var pidTrace: array<int>
    var bitmapSizeBytes: nat
    var totalPages: nat
    var freePages: nat
    /** Never stored by the source, so 0 there; the methods work for any base. */
    const base: nat

    ghost predicate Valid()
      reads this, bitmap, pidTrace
    {
      && totalPages <= pidTrace.Length == TRACE_SLOTS
      && bitmapSizeBytes == (totalPages + 7) / 8 <= bitmap.Length
      && bitmap as object != pidTrace as object
      && Agree(bitmap[..], pidTrace[..totalPages])
      && freePages == CountFree(pidTrace[..totalPages])
    }

    ghost function Owner(): Owners
      requires totalPages <= pidTrace.Length
      reads this, pidTrace
    {
      pidTrace[..totalPages]
    }

    /** The zero-initialised static object, before KiPmmInit. */
    constructor (base: nat)
      ensures Valid() && totalPages == 0 && this.base == base
      ensures fresh(bitmap) && fresh(pidTrace)
    {
      bitmap := new bv8[0];
      pidTrace := new int[TRACE_SLOTS](_ => 0);
      bitmapSizeBytes, totalPages, freePages := 0, 0, 0;
      this.base := base;
    }

    method KiPmmInit(totalMemBytes: u64, pageSize: u32, bitmapMem: array<bv8>, bitmapMemSize: nat) returns (status: int)
      requires pageSize > 0 && bitmapMemSize <= bitmapMem.Length && pidTrace.Length == TRACE_SLOTS
      requires bitmapMem as object != pidTrace as object
      requires totalMemBytes / pageSize <= TRACE_SLOTS
      modifies this, bitmapMem, pidTrace
      ensures pidTrace == old(pidTrace)
      ensures status == if bitmapMemSize < (totalMemBytes / pageSize + 7) / 8 then -1 else 0
      ensures totalPages == totalMemBytes / pageSize
      ensures status == 0 ==> Valid() && bitmap == bitmapMem && forall i :: 0 <= i < totalPages ==> Owner()[i] == 0
    {
      hide Agree;
      totalPages := totalMemBytes / pageSize;
      freePages := totalPages;
      bitmapSizeBytes := (totalPages + 7) / 8;
      if bitmapMemSize < bitmapSizeBytes {
        return -1;
      }
      bitmap := bitmapMem;
      for i := 0 to bitmapSizeBytes
        invariant bitmap == bitmapMem && pidTrace == old(pidTrace) && totalPages == totalMemBytes / pageSize
        invariant freePages == totalPages && bitmapSizeBytes == (totalPages + 7) / 8
        invariant forall k :: 0 <= k < i ==> bitmap[k] == 0
      {
        bitmap[i] := 0;
      }
      for i := 0 to TRACE_SLOTS
        invariant bitmap == bitmapMem && pidTrace == old(pidTrace) && totalPages == totalMemBytes / pageSize
        invariant freePages == totalPages && bitmapSizeBytes == (totalPages + 7) / 8
        invariant forall k :: 0 <= k < bitmapSizeBytes ==> bitmap[k] == 0
        invariant forall k :: 0 <= k < i ==> pidTrace[k] == 0
      {
        pidTrace[i] := 0;
      }
      ClearedPoolAgrees(bitmap[..], Owner());
      return 0;
    }

    method PmmSetBit(bit: nat)
      requires bit / 8 < bitmap.Length
      modifies bitmap
      ensures BitChanged(old(bitmap[..]), bitmap[..], bit, true)
    {
      BitsOfWithBit(bitmap[bit / 8], bit % 8);
      hide TestBit, WithBit;
      bitmap[bit / 8] := WithBit(bitmap[bit / 8], bit % 8);
    }

    method PmmClearBit(bit: nat)
      requires bit / 8 < bitmap.Length
      modifies bitmap
      ensures BitChanged(old(bitmap[..]), bitmap[..], bit, false)
    {
      BitsOfWithoutBit(bitmap[bit / 8], bit % 8);
      hide TestBit, WithoutBit;
      bitmap[bit / 8] := WithoutBit(bitmap[bit / 8], bit % 8);
    }

    ghost function Address(frame: nat): nat {
      base + frame * PAGE_SIZE
    }

    /** Returns NULL (0) when the pool is full; frame 0 of a pool at base 0 has that address too. */
    method KiPmmAlloc(currentPid: int) returns (addr: nat)
      requires Valid() && currentPid != 0
      modifies this`freePages, bitmap, pidTrace
      ensures Valid()
      ensures Owner() == AllocOne(old(Owner()), currentPid)
      ensures addr == if Lowest(old(Owner())) < totalPages then base + Lowest(old(Owner())) * 0x1000 else 0
    {
      hide TestBit, Agree, BitChanged;
      ghost var o := Owner();
      for i := 0 to totalPages
        invariant Valid() && Owner() == o && freePages == old(freePages) && Lowest(o) >= i
      {
        MarkedIffOwned(bitmap[..], o, i);
        if !TestBit(bitmap[i / 8], i % 8) {
          assert Lowest(o) == i;
          CountFreeUpdate(o, i, currentPid);
          CountFreeZero(o);
          ghost var bits := bitmap[..];
          PmmSetBit(i);
          freePages := freePages - 1;
          pidTrace[i] := currentPid;
          AgreeAfterChange(bits, bitmap[..], o, i, currentPid);
          assert Owner() == o[i := currentPid];
          return base + i * PAGE_SIZE;
        }
        assert o[i] != 0;
      }
      return 0;
    }

    /** The comparison is unsigned, so a negative index lies behind the pool. */
    method KiPmmFreeFrame(frame: int)
      requires Valid()
      modifies this`freePages, bitmap, pidTrace
      ensures Valid() && Owner() == FreeRange(old(Owner()), frame, 1)
    {
      hide TestBit, Agree, BitChanged;
      ghost var o := Owner();
      if frame < 0 || frame >= totalPages {
        assert FreeRange(o, frame, 1) == o;
        return;
      }
      MarkedIffOwned(bitmap[..], o, frame);
      if TestBit(bitmap[frame / 8], frame % 8) {
        CountFreeUpdate(o, frame, 0);
        ghost var bits := bitmap[..];
        PmmClearBit(frame);
        freePages := freePages + 1;
        pidTrace[frame] := 0;
        AgreeAfterChange(bits, bitmap[..], o, frame, 0);
        assert Owner() == o[frame := 0];
      }
      assert Owner() == FreeRange(o, frame, 1);
    }

    /** Any pointer into a frame frees that frame; pointers outside the pool are ignored. */
    method KiPmmFree(framePtr: u64)
      requires Valid()
      modifies this`freePages, bitmap, pidTrace
      ensures Valid()
      ensures Owner() == FreeRange(old(Owner()), (framePtr - base) / 0x1000, 1)
    {
      if framePtr < base {
        assert Owner() == FreeRange(Owner(), (framePtr - base) / PAGE_SIZE, 1);
        return;
      }
      KiPmmFreeFrame((framePtr - base) / PAGE_SIZE);
    }

    /** Frees the frames of count pointers a page apart; they wrap around at the end of the address space. */
    method KiPmmNFree(framePtr: u64, count: nat)
      requires Valid()
      modifies this`freePages, bitmap, pidTrace
      ensures Valid() && totalPages == old(totalPages)
      ensures forall k :: 0 <= k < totalPages ==>
        Owner()[k] == if IsHit(base, framePtr, count, k) then 0 else old(Owner())[k]
      ensures framePtr + count * PAGE_SIZE <= 0x1_0000_0000_0000_0000 ==>
        Owner() == FreeRange(old(Owner()), (framePtr - base) / PAGE_SIZE, count)
    {
      hide Agree, CountFree, FrameAt;
      ghost var o := Owner();
      for i := 0 to count
        invariant Valid() && totalPages == old(totalPages)
        invariant forall k :: 0 <= k < totalPages ==> Owner()[k] == if IsHit(base, framePtr, i, k) then 0 else o[k]
      {
        FrameAtPointer(base, framePtr, i);
        KiPmmFree((framePtr + i * PAGE_SIZE) % 0x1_0000_0000_0000_0000);
        forall k: nat
          ensures IsHit(base, framePtr, i + 1, k) <==> IsHit(base, framePtr, i, k) || FrameAt(base, framePtr, i) == k
        {
          OneMoreHit(base, framePtr, i, k);
        }
      }
      if framePtr + count * PAGE_SIZE <= 0x1_0000_0000_0000_0000 {
        forall k: nat
          ensures IsHit(base, framePtr, count, k)
             <==> (framePtr - base) / PAGE_SIZE <= k < (framePtr - base) / PAGE_SIZE + count
        {
          HitsAreARange(base, framePtr, count, k);
        }
      }
    }

    /** A zero count still takes one frame; running out keeps what was taken; and with base 0 a
        free frame 0 is taken and then reported as failure. */
    method KiPmmNAlloc(count: nat, currentPid: int) returns (initial: nat)
      requires Valid() && currentPid != 0
      modifies this`freePages, bitmap, pidTrace
      ensures Valid()
      ensures var o := old(Owner()); var n := Max(count, 1); var start := Address(Lowest(o));
        if Lowest(o) == totalPages then initial == 0 && Owner() == o
        else if start == 0 then initial == 0 && Owner() == AllocOne(o, currentPid)
        else Owner() == AllocMany(o, currentPid, n) && initial == if n <= CountFree(o) then start else 0
    {
      hide TestBit, Agree, BitChanged;
      hide Lowest, CountFree, Agree;
      ghost var o := Owner();
      CountFreeZero(o);
      initial := KiPmmAlloc(currentPid);
      if initial == 0 {
        return;
      }
      assert AllocMany(o, currentPid, 1) == AllocOne(o, currentPid) by {
        assert AllocMany(AllocOne(o, currentPid), currentPid, 0) == AllocOne(o, currentPid);
      }
      AllocOneCount(o, currentPid);
      var n := Max(count, 1);
      for i := 1 to n
        invariant Valid() && totalPages == old(totalPages)
        invariant Owner() == AllocMany(o, currentPid, i) && i <= CountFree(o)
        invariant initial == Address(Lowest(o)) != 0
      {
        ghost var before := Owner();
        AllocManyCount(o, currentPid, i);
        AllocManyAdd(o, currentPid, i, 1);
        assert AllocMany(before, currentPid, 1) == AllocOne(before, currentPid) by {
          assert AllocMany(AllocOne(before, currentPid), currentPid, 0) == AllocOne(before, currentPid);
        }
        CountFreeZero(before);
        LowestIsPositive(o, currentPid, i);
        var test := KiPmmAlloc(currentPid);
        if test == 0 {
          FullPoolStays(before, currentPid, n - i);
          AllocManyAdd(o, currentPid, i, n - i);
          return 0;
        }
      }
    }

    /** Freeing the frames of an allocation through the pointer it returned gives the old pool back exactly
        when the lowest free frames were consecutive. */
    method NAllocThenNFree(count: nat, currentPid: int) returns (initial: nat)
      requires Valid() && currentPid != 0 && count >= 1
      requires base + totalPages * PAGE_SIZE <= 0x1_0000_0000_0000_0000
      modifies this`freePages, bitmap, pidTrace
      ensures Valid()
      ensures initial != 0 ==> (Owner() == old(Owner()) <==> Consecutive(old(Owner()), Lowest(old(Owner())), count))
    {
      hide Agree, CountFree, AllocMany, AllocOne, Consecutive, FreeRange;
      ghost var o := Owner();
      initial := KiPmmNAlloc(count, currentPid);
      if initial != 0 {
        FreeUndoesAllocIffConsecutive(o, currentPid, count);
        FreeLiesPastLowest(o);
        FrameOfAddress(base, Lowest(o));
        KiPmmNFree(initial, count);
      }
    }

    method KiPmmClearPidTracedResources(pid: int)
      requires Valid()
      modifies this`freePages, bitmap, pidTrace
      ensures Valid() && Owner() == Reclaim(old(Owner()), pid)
    {
      hide TestBit, Agree, BitChanged;
      ghost var o := Owner();
      for i := 0 to totalPages
        invariant Valid() && totalPages == old(totalPages)
        invariant forall k :: 0 <= k < i ==> pidTrace[k] == Reclaim(o, pid)[k]
        invariant forall k :: i <= k < totalPages ==> pidTrace[k] == o[k]
      {
        ghost var before := Owner();
        if pidTrace[i] == pid {
          KiPmmFreeFrame(i);
        }
        assert forall k :: 0 <= k < totalPages && k != i ==> Owner()[k] == before[k];
        assert forall k :: 0 <= k < totalPages ==> pidTrace[k] == Owner()[k];
      }
      assert Owner() == Reclaim(o, pid);
    }
  }
}
