/** First-fit block allocation over a bitmap with a cached count of free blocks. */
module BlockAllocation {
  import opened Core

  /** Number of free blocks in a bitmap. */
  ghost function CountFree(bitmap: seq<bool>): nat {
    if |bitmap| == 0 then 0
    else CountFree(bitmap[..|bitmap| - 1]) + (if bitmap[|bitmap| - 1] then 1 else 0)
  }

  lemma {:induction false} CountAfterUpdate(bitmap: seq<bool>, i: nat, v: bool)
    requires i < |bitmap|
    ensures CountFree(bitmap[i := v]) ==
            CountFree(bitmap) + (if v then 1 else 0) - (if bitmap[i] then 1 else 0)
  {
    var n := |bitmap| - 1;
    if i < n {
      assert bitmap[i := v][..n] == bitmap[..n][i := v];
      CountAfterUpdate(bitmap[..n], i, v);
    } else {
      assert bitmap[i := v][..n] == bitmap[..n];
    }
  }

  /** The count is zero exactly when no block is free. */
  lemma {:induction false} CountIsZero(bitmap: seq<bool>)
    ensures CountFree(bitmap) == 0 <==> true !in bitmap
  {
    if |bitmap| > 0 {
      var n := |bitmap| - 1;
      CountIsZero(bitmap[..n]);
      assert bitmap == bitmap[..n] + [bitmap[n]];
    }
  }

  lemma {:induction false} CountAllFree(bitmap: seq<bool>)
    requires false !in bitmap
    ensures CountFree(bitmap) == |bitmap|
  {
    if |bitmap| > 0 {
      CountAllFree(bitmap[..|bitmap| - 1]);
      assert bitmap[|bitmap| - 1] in bitmap;
    }
  }

  class BlockAllocator {
    var freeBitmap: seq<bool>
    var freeCount: nat

    ghost predicate Valid()
      reads this
    {
      freeCount == CountFree(freeBitmap)
    }

    constructor (totalBlocks: nat)
      ensures Valid()
      ensures freeCount == |freeBitmap| == totalBlocks
      ensures false !in freeBitmap
    {
      freeBitmap := seq(totalBlocks, _ => true);
      freeCount := totalBlocks;
      new;
      CountAllFree(freeBitmap);
    }

    /** Takes the lowest-numbered free block; fails exactly when there is none. */
    method Allocate() returns (r: Result<nat>)
      requires Valid()
      modifies this
      ensures Valid()
      ensures r.Failure? <==> old(freeCount) == 0
      ensures r.Failure? ==> r.error == OutOfMemory && unchanged(this)
      ensures r.Success? ==>
                && r.value < |old(freeBitmap)|
                && old(freeBitmap)[r.value]
                && true !in old(freeBitmap)[..r.value]
                && freeBitmap == old(freeBitmap)[r.value := false]
                && freeCount == old(freeCount) - 1
    {
      CountIsZero(freeBitmap);
      if freeCount == 0 {
        return Failure(OutOfMemory);
      }
      var i := 0;
      while i < |freeBitmap|
        invariant i <= |freeBitmap|
        invariant true !in freeBitmap[..i]
        invariant unchanged(this)
      {
        if freeBitmap[i] {
          CountAfterUpdate(freeBitmap, i, false);
          freeBitmap := freeBitmap[i := false];
          freeCount := freeCount - 1;
          return Success(i);
        }
        assert freeBitmap[..i + 1] == freeBitmap[..i] + [freeBitmap[i]];
        i := i + 1;
      }
      assert false;
    }

    /** Gives back an allocated block and refuses every other index. */
    method Free(blockIndex: nat) returns (r: Result<()>)
      requires Valid()
      modifies this
      ensures Valid()
      ensures r.Success? <==> blockIndex < |old(freeBitmap)| && !old(freeBitmap)[blockIndex]
      ensures r.Failure? ==> unchanged(this)
      ensures r.Failure? ==> r.error == (if blockIndex < |old(freeBitmap)| then InvalidState else InvalidAddress)
      ensures r.Success? ==> freeBitmap == old(freeBitmap)[blockIndex := true]
      ensures r.Success? ==> freeCount == old(freeCount) + 1
    {
      if blockIndex >= |freeBitmap| {
        return Failure(InvalidAddress);
      }
      if freeBitmap[blockIndex] {
        return Failure(InvalidState);
      }
      CountAfterUpdate(freeBitmap, blockIndex, true);
      freeBitmap := freeBitmap[blockIndex := true];
      freeCount := freeCount + 1;
      return Success(());
    }
  }
}
