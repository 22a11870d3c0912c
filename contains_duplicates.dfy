/**
 * Contains duplicate: whether some value appears more than once in a list
 * of integers.
 */
module ContainsDuplicate {

  /** Some value stands at two different positions of `nums`. */
  predicate HasRepeat(nums: seq<int>)
  {
    exists i, j :: 0 <= i < j < |nums| && nums[i] == nums[j]
  }

  /** The set of values in `nums` (Python's `set(nums)`). */
  function Elements(nums: seq<int>): (s: set<int>)
    ensures forall x :: x in s <==> x in nums
  {
    set x | x in nums
  }

  /**
   * A list has at least as many positions as distinct values, and exactly
   * as many when no value repeats.
   */
  lemma {:induction false} ElementsCount(nums: seq<int>)
    ensures |Elements(nums)| <= |nums|
    ensures |Elements(nums)| == |nums| <==> !HasRepeat(nums)
  {
    if nums != [] {
      var init, x := nums[..|nums| - 1], nums[|nums| - 1];
      assert nums == init + [x];
      assert Elements(nums) == Elements(init) + {x};
      ElementsCount(init);
      if x in init {
        var k :| 0 <= k < |init| && init[k] == x;
        assert nums[k] == nums[|nums| - 1];
        assert Elements(nums) == Elements(init);
      } else {
        assert |Elements(nums)| == |Elements(init)| + 1;
        if HasRepeat(nums) {
          var i, j :| 0 <= i < j < |nums| && nums[i] == nums[j];
          assert j < |nums| - 1;
          assert init[i] == init[j];
        }
        if HasRepeat(init) {
          var i, j :| 0 <= i < j < |init| && init[i] == init[j];
          assert nums[i] == nums[j];
        }
      }
    }
  }

  /** The set-size solution: fewer distinct values than positions. */
  function HasDuplicateBySize(nums: seq<int>): (r: bool)
    ensures r <==> HasRepeat(nums)
  {
    ElementsCount(nums);
    |Elements(nums)| < |nums|
  }

  /**
   * The loop solution: walk the list, remembering the values seen so far,
   * and answer true at the first value already seen. `stop` is the index at
   * which the walk ended.
   */
  method HasDuplicate(nums: seq<int>) returns (r: bool, ghost stop: nat)
    ensures r <==> HasRepeat(nums)
    ensures r == HasDuplicateBySize(nums)
    ensures stop <= |nums| && !HasRepeat(nums[..stop])
    ensures r ==> stop < |nums| && nums[stop] in nums[..stop]
    ensures !r ==> stop == |nums|
  {
    var seen: set<int> := {};
    for k := 0 to |nums|
      invariant seen == Elements(nums[..k])
      invariant !HasRepeat(nums[..k])
    {
      var num := nums[k];
      if num in seen {
        var i :| 0 <= i < k && nums[i] == num;
        assert nums[i] == nums[k];
        return true, k;
      }
      seen := seen + {num};
      assert nums[..k + 1] == nums[..k] + [num];
      assert Elements(nums[..k + 1]) == Elements(nums[..k]) + {num};
    }
    assert nums[..|nums|] == nums;
    return false, |nums|;
  }

  /** The worked examples, and the empty list, run through both solutions. */
  method DocExamples() returns (onRepeated: bool, onDistinct: bool, onEmpty: bool)
    ensures onRepeated && !onDistinct && !onEmpty
    ensures HasDuplicateBySize([1, 2, 3, 3]) && !HasDuplicateBySize([1, 2, 3, 4]) && !HasDuplicateBySize([])
  {
    var repeated := [1, 2, 3, 3];
    var distinct := [1, 2, 3, 4];
    ghost var stop: nat;
    onRepeated, stop := HasDuplicate(repeated);
    assert repeated[2] == repeated[3];
    onDistinct, stop := HasDuplicate(distinct);
    assert forall i, j :: 0 <= i < j < |distinct| ==> distinct[i] < distinct[j];
    onEmpty, stop := HasDuplicate([]);
  }
}
