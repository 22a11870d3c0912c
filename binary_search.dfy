/**
 * Binary search for `target` in a list of distinct integers sorted in
 * ascending order: its index, or -1 when it is absent.
 */
module BinarySearch {

  /** Strictly ascending, hence sorted with distinct elements. */
  predicate StrictlyAscending(nums: seq<int>)
  {
    forall i, j :: 0 <= i < j < |nums| ==> nums[i] < nums[j]
  }

  /**
   * The correct solution. The window `[front, back]` always contains the
   * index of `target` if there is one; each probe at the middle either finds
   * it or discards the middle and one half.
   */
  method Search(nums: seq<int>, target: int) returns (r: int)
    requires StrictlyAscending(nums)
    ensures -1 <= r < |nums|
    ensures r >= 0 ==> nums[r] == target
    ensures r == -1 <==> target !in nums
    ensures r >= 0 ==> forall i :: 0 <= i < |nums| && nums[i] == target ==> i == r
  {
    var front := 0;
    var back := |nums| - 1;
    while front <= back
      invariant 0 <= front <= back + 1 <= |nums|
      invariant forall i :: 0 <= i < front ==> nums[i] < target
      invariant forall i :: back < i < |nums| ==> target < nums[i]
      decreases back - front
    {
      var middle := (front + back) / 2;
      assert front <= middle <= back;
      var middleValue := nums[middle];
      if middleValue == target {
        return middle;
      } else if middleValue < target {
        front := middle + 1;
      } else {
        back := middle - 1;
      }
    }
    return -1;
  }

  /** Both worked examples: 4 is found at index 3 and 3 is reported absent. */
  method DocExamples() returns (found: int, missing: int)
    ensures found == 3
    ensures missing == -1
  {
    var nums := [-1, 0, 2, 4, 6, 8];
    found := Search(nums, 4);
    assert nums[3] == 4;
    missing := Search(nums, 3);
    assert forall i :: 0 <= i < |nums| ==> nums[i] != 3;
  }

  /** The empty list holds nothing: the loop is never entered and -1 comes back. */
  method EmptyExample(target: int) returns (r: int)
    ensures r == -1
  {
    r := Search([], target);
  }
}
