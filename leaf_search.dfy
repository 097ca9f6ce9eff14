/**
 * The scan of the leaf list for the current page (the search half of
 * find_book_mark_by_page_num): a binary search whose "go right" step only
 * moves `left` by one, and which remembers the last `left` it moved from.
 */
module LeafSearch {
  import opened Text

  /**
   * What the scan ends with: no leaves at all; a leaf on exactly the page;
   * the leaf it settles on otherwise; or an abort, where the source would
   * panic (an unsigned `mid - 1` below zero, or an index one past the end).
   */
  datatype Lookup = NoLeaves | Exact(index: nat) | Nearest(index: nat) | Panic

  /** The leaves' pages never decrease along the list. */
  predicate Sorted(nums: seq<U32>)
  {
    forall i, j :: 0 <= i <= j < |nums| ==> nums[i] <= nums[j]
  }

  /**
   * The scan between `left` and `right`: an exact hit returns at once, a
   * higher page moves `right` below the middle, a lower one moves `left` on
   * by one. When the bounds cross, `left` is one past the last `left` moved
   * from; the scan settles on `left` when `p` is above its page and on the
   * one before it otherwise.
   */
  function SearchFrom(nums: seq<U32>, p: U32, left: nat, right: int): (r: Lookup)
    requires 0 <= right < |nums| && left <= right + 1
    ensures r != NoLeaves
    ensures r.Exact? ==> r.index < |nums| && nums[r.index] == p
    ensures r.Nearest? ==> r.index < |nums|
    decreases right - left
  {
    if left > right then
      if left == |nums| then Panic
      else if p > nums[left] then Nearest(left)
      else Nearest(left - 1)
    else
      var mid := (left + right) / 2;
      if nums[mid] == p then Exact(mid)
      else if nums[mid] > p then
        if mid == 0 then Panic else SearchFrom(nums, p, left, mid - 1)
      else SearchFrom(nums, p, left + 1, right)
  }

  /** The whole scan: no leaves at all, or the scan over the whole list. */
  function Search(nums: seq<U32>, p: U32): (r: Lookup)
    ensures r == NoLeaves <==> |nums| == 0
    ensures r.Exact? ==> r.index < |nums| && nums[r.index] == p
    ensures r.Nearest? ==> r.index < |nums|
  {
    if |nums| == 0 then NoLeaves else SearchFrom(nums, p, 0, |nums| - 1)
  }

  /**
   * The scan over the pages `nums` of the leaves, for page `p`, as a loop.
   *
   * It ends as `Search` does. On a sorted list: the scan aborts exactly when
   * `p` lies below the first or above the last leaf page; it hits exactly
   * when some leaf is on page `p`; otherwise it settles on the last leaf
   * before `p`, and every later leaf is after `p`.
   */
  method SearchLeaves(nums: seq<U32>, p: U32) returns (r: Lookup)
    ensures r == Search(nums, p)
    ensures Sorted(nums) && |nums| > 0 ==> (r == Panic <==> p < nums[0] || nums[|nums| - 1] < p)
    ensures Sorted(nums) ==> (r.Exact? <==> p in nums)
    ensures Sorted(nums) && r.Nearest? ==>
              r.index + 1 < |nums| && forall j :: 0 <= j < |nums| ==> (nums[j] < p <==> j <= r.index)
  {
    if |nums| == 0 {
      return NoLeaves;
    }
    var left: nat := 0;
    var right: int := |nums| - 1;
    var lastLeft: int := -1;
    while left <= right
      invariant 0 <= right && 0 <= left <= right + 1 <= |nums|
      invariant lastLeft == left - 1
      invariant SearchFrom(nums, p, left, right) == Search(nums, p)
      invariant Sorted(nums) ==> forall k :: 0 <= k < left ==> nums[k] < p
      invariant Sorted(nums) ==> forall k :: right < k < |nums| ==> p < nums[k]
      invariant Sorted(nums) && p < nums[0] ==> left == 0
      invariant Sorted(nums) && nums[|nums| - 1] < p ==> right == |nums| - 1
      decreases right - left
    {
      var mid := (left + right) / 2;
      if nums[mid] == p {
        return Exact(mid);
      } else if nums[mid] > p {
        if mid == 0 {
          // `right = mid - 1` on an unsigned zero
          return Panic;
        }
        right := mid - 1;
      } else {
        lastLeft := left;
        left := left + 1;
      }
    }
    if lastLeft == -1 {
      // lastLeft == left - 1 and left == right + 1 >= 1 here
      assert false;
    }
    if left == |nums| {
      // `book_marks_pages[left]` one past the end
      return Panic;
    }
    if p > nums[left] {
      r := Nearest(left);
    } else {
      r := Nearest(lastLeft);
    }
  }
}
