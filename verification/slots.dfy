/** Sequences of slots in which 0 marks a free slot: taking the lowest free slot, and counting.
    The frame pool and the FAT are both used this way. */
module FreeSlots {
  import opened Words

  /** Index of the first free slot at or after `from`, or |o|. */
  function LowestFrom(o: seq<int>, from: nat): (i: nat)
    requires from <= |o|
    ensures from <= i <= |o|
    ensures forall k :: from <= k < i ==> o[k] != 0
    ensures i < |o| ==> o[i] == 0
    decreases |o| - from
  {
    if from == |o| || o[from] == 0 then from else LowestFrom(o, from + 1)
  }

  function Lowest(o: seq<int>): (i: nat)
    ensures i <= |o|
    ensures forall k :: 0 <= k < i ==> o[k] != 0
    ensures i < |o| ==> o[i] == 0
  {
    LowestFrom(o, 0)
  }

  function CountFree(o: seq<int>): nat {
    if o == [] then 0
    else CountFree(o[..|o| - 1]) + if o[|o| - 1] == 0 then 1 else 0
  }

  /** One allocation: the lowest free slot is set to `mark`; a full pool stays as it is. */
  function AllocOne(o: seq<int>, mark: int): seq<int> {
    if Lowest(o) < |o| then o[Lowest(o) := mark] else o
  }

  function AllocMany(o: seq<int>, mark: int, n: nat): (r: seq<int>)
    ensures |r| == |o|
    decreases n
  {
    if n == 0 then o else AllocMany(AllocOne(o, mark), mark, n - 1)
  }

  lemma {:induction false} CountFreeUpdate(o: seq<int>, i: nat, x: int)
    requires i < |o|
    ensures CountFree(o[i := x]) + (if o[i] == 0 then 1 else 0) == CountFree(o) + if x == 0 then 1 else 0
    decreases |o|
  {
    var m := |o| - 1;
    if i == m {
      assert o[i := x][..m] == o[..m];
    } else {
      assert o[i := x][..m] == o[..m][i := x];
      CountFreeUpdate(o[..m], i, x);
    }
  }

  lemma {:induction false} CountFreePrefix(o: seq<int>, a: nat, b: nat)
    requires a <= b <= |o|
    ensures CountFree(o[..a]) <= CountFree(o[..b]) <= CountFree(o[..a]) + (b - a)
    ensures CountFree(o[..b]) == CountFree(o[..a]) + (b - a) <==> forall k :: a <= k < b ==> o[k] == 0
    ensures CountFree(o[..b]) == CountFree(o[..a]) <==> forall k :: a <= k < b ==> o[k] != 0
    decreases b
  {
    if a < b {
      CountFreePrefix(o, a, b - 1);
      assert o[..b][..b - 1] == o[..b - 1];
    }
  }

  lemma CountFreeZero(o: seq<int>)
    ensures CountFree(o) == 0 <==> Lowest(o) == |o|
  {
    CountFreePrefix(o, 0, |o|);
    assert o[..|o|] == o;
  }

  lemma AllocOneCount(o: seq<int>, mark: int)
    requires mark != 0
    ensures CountFree(AllocOne(o, mark)) == if CountFree(o) > 0 then CountFree(o) - 1 else 0
  {
    CountFreeZero(o);
    if Lowest(o) < |o| {
      CountFreeUpdate(o, Lowest(o), mark);
    }
  }

  lemma {:induction false} AllocManyCount(o: seq<int>, mark: int, n: nat)
    requires mark != 0
    ensures CountFree(AllocMany(o, mark, n)) == if CountFree(o) > n then CountFree(o) - n else 0
    decreases n
  {
    if n > 0 {
      AllocOneCount(o, mark);
      AllocManyCount(AllocOne(o, mark), mark, n - 1);
    }
  }

  lemma {:induction false} AllocManyAdd(o: seq<int>, mark: int, m: nat, n: nat)
    ensures AllocMany(AllocMany(o, mark, m), mark, n) == AllocMany(o, mark, m + n)
    decreases m
  {
    if m > 0 {
      AllocManyAdd(AllocOne(o, mark), mark, m - 1, n);
    }
  }

  /** Of any stretch from the beginning, n allocations take the n lowest free slots. */
  lemma {:induction false} AllocManyPrefix(o: seq<int>, mark: int, n: nat, k: nat)
    requires mark != 0 && k <= |o|
    ensures CountFree(AllocMany(o, mark, n)[..k]) == if CountFree(o[..k]) > n then CountFree(o[..k]) - n else 0
    decreases n
  {
    if n > 0 {
      var m, o1 := Lowest(o), AllocOne(o, mark);
      if m < k {
        assert o1[..k] == o[..k][m := mark];
        CountFreeUpdate(o[..k], m, mark);
      } else {
        CountFreePrefix(o, 0, k);
        assert o1[..k] == o[..k];
      }
      AllocManyPrefix(o1, mark, n - 1, k);
    }
  }

  /** n allocations give away exactly the free slots that have fewer than n free slots
      below them, and touch no other slot. */
  lemma {:induction false} AllocManyTakesTheLowest(o: seq<int>, mark: int, n: nat)
    requires mark != 0
    ensures forall k :: 0 <= k < |o| ==>
      AllocMany(o, mark, n)[k] == if o[k] == 0 && CountFree(o[..k]) < n then mark else o[k]
    decreases n
  {
    if n > 0 {
      var m := Lowest(o);
      var o1 := AllocOne(o, mark);
      AllocManyTakesTheLowest(o1, mark, n - 1);
      forall k | 0 <= k < |o|
        ensures AllocMany(o, mark, n)[k] == if o[k] == 0 && CountFree(o[..k]) < n then mark else o[k]
      {
        if k <= m {
          CountFreePrefix(o, 0, k);
          assert o1[..k] == o[..k];
        } else {
          assert o1[..k] == o[..k][m := mark];
          CountFreeUpdate(o[..k], m, mark);
        }
      }
    }
  }

  /** The slot that receives the n-th allocation lies past any prefix with fewer than n free slots. */
  lemma {:induction false} FreeSlotPast(o: seq<int>, from: nat, n: nat) returns (k: nat)
    requires from <= |o| && CountFree(o[..from]) < n <= CountFree(o)
    ensures from <= k < |o| && o[k] == 0 && CountFree(o[..k]) < n
  {
    k := LowestFrom(o, from);
    CountFreePrefix(o, from, k);
    assert o[..|o|] == o;
  }
}
