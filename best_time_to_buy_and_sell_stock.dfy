/**
 * Best time to buy and sell: the largest profit from buying on one day and
 * selling on a later day, or 0 when no such trade makes money.
 */
module StockProfit {

  /**
   * `r` is the best single-trade profit on `prices`: no pair of days
   * `i < j` earns more than `r`, `r` is never negative, and unless it is 0
   * some pair earns exactly `r`.
   */
  ghost predicate IsMaxProfit(prices: seq<int>, r: int)
  {
    r >= 0 &&
    (forall i, j :: 0 <= i < j < |prices| ==> prices[j] - prices[i] <= r) &&
    (r == 0 || exists i, j :: 0 <= i < j < |prices| && prices[j] - prices[i] == r)
  }

  /** The best profit is unique, so any two solutions meeting it agree. */
  lemma MaxProfitUnique(prices: seq<int>, r1: int, r2: int)
    requires IsMaxProfit(prices, r1) && IsMaxProfit(prices, r2)
    ensures r1 == r2
  {
  }

  /** In a strictly falling price series every later day is cheaper than every earlier one. */
  lemma {:induction false} FallingPairs(prices: seq<int>, i: nat, j: nat)
    requires forall k :: 0 <= k < |prices| - 1 ==> prices[k] > prices[k + 1]
    requires i < j < |prices|
    ensures prices[j] < prices[i]
    decreases j - i
  {
    if i + 1 < j {
      FallingPairs(prices, i + 1, j);
    }
  }

  /** A strictly falling price series offers no profitable trade. */
  lemma FallingGivesZero(prices: seq<int>)
    requires forall k :: 0 <= k < |prices| - 1 ==> prices[k] > prices[k + 1]
    ensures IsMaxProfit(prices, 0)
  {
    forall i, j | 0 <= i < j < |prices|
      ensures prices[j] - prices[i] <= 0
    {
      FallingPairs(prices, i, j);
    }
  }

  /**
   * The fixed solution: one pass that keeps the lowest price seen so far
   * and the best profit from selling at a later day.
   */
  method MaxProfit(prices: seq<int>) returns (best: int)
    requires |prices| >= 1
    ensures IsMaxProfit(prices, best)
  {
    var lowest := prices[0];
    best := 0;
    ghost var lowAt, buyDay, sellDay := 0, 0, 0;
    for i := 1 to |prices|
      invariant lowAt < i && prices[lowAt] == lowest
      invariant forall k :: 0 <= k < i ==> lowest <= prices[k]
      invariant best >= 0
      invariant forall a, b :: 0 <= a < b < i ==> prices[b] - prices[a] <= best
      invariant best == 0 || (buyDay < sellDay < i && prices[sellDay] - prices[buyDay] == best)
    {
      var current := prices[i];
      if current < lowest {
        lowest := current;
        lowAt := i;
      } else {
        var profit := current - lowest;
        if profit > best {
          best := profit;
          buyDay, sellDay := lowAt, i;
        }
      }
    }
  }

  /**
   * The max/min solution: for every day, first the profit of selling at it
   * against the cheapest day so far, then that day joins the candidates
   * for buying.
   */
  method MaxProfitMaxMin(prices: seq<int>) returns (maxP: int)
    requires |prices| >= 1
    ensures IsMaxProfit(prices, maxP)
  {
    maxP := 0;
    var minBuy := prices[0];
    ghost var minAt, buyDay, sellDay := 0, 0, 0;
    for i := 0 to |prices|
      invariant minAt < |prices| && prices[minAt] == minBuy
      invariant minAt < i || minAt == 0
      invariant forall k :: 0 <= k < i ==> minBuy <= prices[k]
      invariant maxP >= 0
      invariant forall a, b :: 0 <= a < b < i ==> prices[b] - prices[a] <= maxP
      invariant maxP == 0 || (buyDay < sellDay < i && prices[sellDay] - prices[buyDay] == maxP)
    {
      var sell := prices[i];
      if maxP < sell - minBuy {
        maxP := sell - minBuy;
        buyDay, sellDay := minAt, i;
      }
      if sell < minBuy {
        minBuy := sell;
        minAt := i;
      }
    }
  }

  /** The fixed and the max/min solutions return the same profit on every non-empty input. */
  method SolutionsAgree(prices: seq<int>) returns (fixed: int, maxMin: int)
    requires |prices| >= 1
    ensures fixed == maxMin
  {
    fixed := MaxProfit(prices);
    maxMin := MaxProfitMaxMin(prices);
    MaxProfitUnique(prices, fixed, maxMin);
  }

  /** The first worked example: the best trade on `[10, 1, 5, 6, 7, 1]` earns 6. */
  lemma FirstExample(prices: seq<int>, r: int)
    requires prices == [10, 1, 5, 6, 7, 1]
    requires IsMaxProfit(prices, r)
    ensures r == 6
  {
    assert IsMaxProfit(prices, 6) by {
      assert prices[4] - prices[1] == 6;
    }
    MaxProfitUnique(prices, r, 6);
  }

  /** The second worked example: the falling series `[10, 8, 7, 5, 2]` earns 0. */
  lemma SecondExample(prices: seq<int>, r: int)
    requires prices == [10, 8, 7, 5, 2]
    requires IsMaxProfit(prices, r)
    ensures r == 0
  {
    FallingGivesZero(prices);
    MaxProfitUnique(prices, r, 0);
  }

  /** Both worked examples, run through both solutions. */
  method DocExamples() returns (fixed1: int, maxMin1: int, fixed2: int, maxMin2: int)
    ensures fixed1 == maxMin1 == 6
    ensures fixed2 == maxMin2 == 0
  {
    var first := [10, 1, 5, 6, 7, 1];
    var second := [10, 8, 7, 5, 2];
    fixed1 := MaxProfit(first);
    FirstExample(first, fixed1);
    maxMin1 := MaxProfitMaxMin(first);
    FirstExample(first, maxMin1);
    fixed2 := MaxProfit(second);
    SecondExample(second, fixed2);
    maxMin2 := MaxProfitMaxMin(second);
    SecondExample(second, maxMin2);
  }
}
