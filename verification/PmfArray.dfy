/** The variable-length array of pmf_array.h, with its unsigned index arithmetic. */
module PmfArray {
  import opened CNumbers
  import opened CText

  /** `used_num-1` in size_t arithmetic: 0 wraps to the largest value. */
  function MinusOne(u: int): (r: int)
    requires 0 <= u < ULONG
    ensures r == if u == 0 then ULONG - 1 else u - 1
  {
    (u - 1) % ULONG
  }

  /** pmf_array_item as the slot number its pointer stands for, None for NULL. */
  function Item(usedNum: int, n: int): Option<int>
    requires 0 <= usedNum < ULONG && 0 <= n < UINT
  {
    if n > MinusOne(usedNum) then None else Some(n)
  }

  /** On a non-empty array the bounds check is the expected one; on an empty array the
      subtraction wraps and every index passes. */
  lemma ItemIff(usedNum: int, n: int)
    requires 0 <= usedNum < ULONG && 0 <= n < UINT
    ensures Item(usedNum, n).Some? <==> n < usedNum || usedNum == 0
  {
  }

  /** Item `n` replaced by the last one, the last slot dropped. */
  function SwapRemove<T>(s: seq<T>, n: nat): (r: seq<T>)
    requires n < |s|
    ensures |r| == |s| - 1
  {
    s[n := s[|s| - 1]][..|s| - 1]
  }

  /** Removing by swap loses exactly the item at `n`, in front of which nothing moves. */
  lemma SwapRemoveCounts<T>(s: seq<T>, n: nat)
    requires n < |s|
    ensures SwapRemove(s, n)[..n] == s[..n]
    ensures multiset(SwapRemove(s, n)[n..]) == multiset(s[n..]) - multiset{s[n]}
  {
    var last := s[|s| - 1];
    var r := SwapRemove(s, n);
    if n == |s| - 1 {
      assert r[n..] == [] && s[n..] == [last];
    } else {
      var mid := s[n + 1..|s| - 1];
      assert r[n..] == [last] + mid;
      assert s[n..] == [s[n]] + mid + [last];
    }
  }

  class Array<T(0)> {
    var data: array<T>
    var usedNum: int
    var allocatedNum: int

    ghost predicate Valid()
      reads this
    {
      0 <= usedNum <= allocatedNum == data.Length < UINT
    }

    ghost function Contents(): seq<T>
      reads this, data
      requires Valid()
    {
      data[..usedNum]
    }

    /** pmf_array_init */
    constructor (initialNum: nat)
      requires initialNum < UINT
      ensures Valid() && Contents() == [] && fresh(data) && allocatedNum == initialNum
    {
      data := new T[initialNum];
      allocatedNum := initialNum;
      usedNum := 0;
    }

    /** pmf_array_remove_item on a non-empty array: the slot refilled, or -1. */
    method RemoveItem(n: int) returns (ret: int)
      requires Valid() && usedNum > 0 && 0 <= n < UINT
      modifies this`usedNum, data
      ensures Valid()
      ensures n >= old(usedNum) ==> ret == -1 && Contents() == old(Contents())
      ensures n < old(usedNum) ==>
                Contents() == SwapRemove(old(Contents()), n) && ret == if n < old(usedNum) - 1 then n else -1
    {
      ret := -1;
      if n > MinusOne(usedNum) {
        return;
      }
      if n < MinusOne(usedNum) {
        var last := Item(usedNum, MinusOne(usedNum) % UINT);
        var toRemove := Item(usedNum, n);
        data[toRemove.value] := data[last.value];
        ret := n;
      }
      usedNum := usedNum - 1;
    }

    /** pmf_array_push: room for one more item, and the pointer handed out for it. The bounds
        check sees the old count, so on a non-empty array the answer is NULL although the
        array has grown. */
    method Push() returns (slot: Option<int>)
      requires Valid()
      requires usedNum == allocatedNum ==> (if allocatedNum > 0 then allocatedNum * 2 else 20) < UINT
      modifies this
      ensures Valid() && (data == old(data) || fresh(data))
      ensures usedNum == old(usedNum) + 1 && Contents()[..old(usedNum)] == old(Contents())
      ensures slot == if old(usedNum) == 0 then Some(0) else None
      ensures allocatedNum == if old(usedNum) < old(allocatedNum) then old(allocatedNum)
                              else if old(allocatedNum) > 0 then 2 * old(allocatedNum) else 20
    {
      if usedNum == allocatedNum {
        var newAllocatedNum := if allocatedNum > 0 then allocatedNum * 2 else 20;
        var newPtr := new T[newAllocatedNum];
        forall i | 0 <= i < usedNum {
          newPtr[i] := data[i];
        }
        assert newPtr[..usedNum] == data[..usedNum];
        data := newPtr;
        allocatedNum := newAllocatedNum;
      }
      slot := Item(usedNum, usedNum);
      usedNum := usedNum + 1;
    }
  }
}
