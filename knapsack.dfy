/** The stock-investment optimizer: a 0/1 knapsack whose capacity is the budget
    rounded down to a whole currency unit, whose item weights are the share prices
    rounded down, and whose item values are the stocks' expected returns in
    percentage points. Each stock is bought at most once. */
module Knapsack {

  /** A candidate stock: an opaque symbol, a share price, an expected return in percent. */
  datatype Stock = Stock(symbol: string, price: real, expectedReturn: real)

  /** The record one optimization returns. */
  datatype Portfolio = Portfolio(
    selectedStocks: seq<Stock>,
    totalInvestment: real,
    totalReturn: real,
    remainingBudget: real,
    maxValue: real)

  // ---------------------------------------------------------------------------
  // Stocks, prices and the folds over a list of stocks
  // ---------------------------------------------------------------------------

  /** The knapsack weight of a stock: its price rounded down. */
  function Weight(st: Stock): (w: int)
    ensures w as real <= st.price < w as real + 1.0
    ensures 0.0 <= st.price ==> 0 <= w
  {
    st.price.Floor
  }

  function PriceOf(st: Stock): real {
    st.price
  }

  function ReturnOf(st: Stock): real {
    st.expectedReturn
  }

  /** No price is negative, so no weight is negative. */
  predicate NonNegativePrices(s: seq<Stock>) {
    forall k :: 0 <= k < |s| ==> 0.0 <= s[k].price
  }

  /** Every stock costs at least one whole currency unit. */
  predicate PositiveWeights(s: seq<Stock>) {
    forall k :: 0 <= k < |s| ==> 1 <= Weight(s[k])
  }

  /** Every price is a whole number of currency units, and not negative. */
  predicate WholePrices(s: seq<Stock>) {
    forall k :: 0 <= k < |s| ==> 0.0 <= s[k].price && s[k].price == Weight(s[k]) as real
  }

  function Max(a: real, b: real): (m: real)
    ensures a <= m && b <= m && (m == a || m == b)
  {
    if a >= b then a else b
  }

  /** A left fold that adds up `f` over the stocks, starting from zero. */
  function SumBy(xs: seq<Stock>, f: Stock -> real): real {
    if xs == [] then 0.0 else SumBy(xs[..|xs| - 1], f) + f(xs[|xs| - 1])
  }

  /** The money the stocks cost, at their unrounded prices; the same whichever
      end of the list the sum starts from. */
  function TotalPrice(xs: seq<Stock>): (r: real)
    ensures r == SumBy(Reverse(xs), PriceOf)
  {
    SumByReverse(xs, PriceOf);
    SumBy(xs, PriceOf)
  }

  /** The sum of the stocks' expected returns, in percentage points; the same
      whichever end of the list the sum starts from. */
  function TotalReturn(xs: seq<Stock>): (r: real)
    ensures r == SumBy(Reverse(xs), ReturnOf)
  {
    SumByReverse(xs, ReturnOf);
    SumBy(xs, ReturnOf)
  }

  /** The knapsack weight of the stocks: the sum of their rounded-down prices. */
  function FlooredCost(xs: seq<Stock>): int {
    if xs == [] then 0 else FlooredCost(xs[..|xs| - 1]) + Weight(xs[|xs| - 1])
  }

  /** The list read back to front. */
  function Reverse<T>(xs: seq<T>): (r: seq<T>)
    ensures |r| == |xs|
    ensures forall k :: 0 <= k < |xs| ==> r[k] == xs[|xs| - 1 - k]
  {
    if xs == [] then [] else [xs[|xs| - 1]] + Reverse(xs[..|xs| - 1])
  }

  lemma ReverseSnoc<T>(xs: seq<T>, x: T)
    ensures Reverse(xs + [x]) == [x] + Reverse(xs)
  {
    assert (xs + [x])[..|xs|] == xs;
  }

  lemma {:induction false} SumByPrepend(x: Stock, xs: seq<Stock>, f: Stock -> real)
    ensures SumBy([x] + xs, f) == f(x) + SumBy(xs, f)
    decreases |xs|
  {
    if xs != [] {
      var ys := [x] + xs;
      assert ys[..|ys| - 1] == [x] + xs[..|xs| - 1];
      SumByPrepend(x, xs[..|xs| - 1], f);
    }
  }

  /** Summing a list before or after it is reversed gives the same total. */
  lemma {:induction false} SumByReverse(xs: seq<Stock>, f: Stock -> real)
    ensures SumBy(Reverse(xs), f) == SumBy(xs, f)
    decreases |xs|
  {
    if xs != [] {
      var init := xs[..|xs| - 1];
      SumByPrepend(xs[|xs| - 1], Reverse(init), f);
      SumByReverse(init, f);
    }
  }

  /** The money spent is at least the knapsack weight and less than one unit
      more per stock; with whole prices the two agree. */
  lemma {:induction false} TotalPriceBounds(xs: seq<Stock>)
    ensures FlooredCost(xs) as real <= TotalPrice(xs)
    ensures xs != [] ==> TotalPrice(xs) < FlooredCost(xs) as real + |xs| as real
    ensures WholePrices(xs) ==> TotalPrice(xs) == FlooredCost(xs) as real
    decreases |xs|
  {
    if xs != [] {
      var init := xs[..|xs| - 1];
      TotalPriceBounds(init);
      assert WholePrices(xs) ==> WholePrices(init) by {
        if WholePrices(xs) {
          forall k | 0 <= k < |init| ensures 0.0 <= init[k].price && init[k].price == Weight(init[k]) as real {
            assert init[k] == xs[k];
          }
        }
      }
    }
  }

  // ---------------------------------------------------------------------------
  // Selections: subsets of the stock list, as increasing lists of positions
  // ---------------------------------------------------------------------------

  /** Every position in `idx` is one of the first `i`. */
  predicate InRange(idx: seq<int>, i: int) {
    forall k :: 0 <= k < |idx| ==> 0 <= idx[k] < i
  }

  predicate Increasing(idx: seq<int>) {
    forall j, k :: 0 <= j < k < |idx| ==> idx[j] < idx[k]
  }

  /** `idx` lists distinct stocks among the first `i`, in input order. */
  predicate IsSelection(idx: seq<int>, i: int) {
    InRange(idx, i) && Increasing(idx)
  }

  /** The stocks at the given positions, in the given order. */
  function Pick(s: seq<Stock>, idx: seq<int>): seq<Stock>
    requires InRange(idx, |s|)
  {
    seq(|idx|, k requires 0 <= k < |idx| => s[idx[k]])
  }

  /** The summed rounded-down prices of the selected stocks. */
  function Cost(s: seq<Stock>, idx: seq<int>): int
    requires InRange(idx, |s|)
  {
    if idx == [] then 0 else Cost(s, idx[..|idx| - 1]) + Weight(s[idx[|idx| - 1]])
  }

  /** The summed expected returns of the selected stocks. */
  function Gain(s: seq<Stock>, idx: seq<int>): real
    requires InRange(idx, |s|)
  {
    if idx == [] then 0.0 else Gain(s, idx[..|idx| - 1]) + s[idx[|idx| - 1]].expectedReturn
  }

  lemma InRangeSnoc(idx: seq<int>, i: int)
    requires 0 <= i && InRange(idx, i)
    ensures InRange(idx + [i], i + 1)
  {
    var ext := idx + [i];
    forall k | 0 <= k < |ext| ensures 0 <= ext[k] < i + 1 {
      if k < |idx| {
        assert ext[k] == idx[k];
      }
    }
  }

  lemma SelectionSnoc(idx: seq<int>, i: int)
    requires 0 <= i && IsSelection(idx, i)
    ensures IsSelection(idx + [i], i + 1)
  {
    InRangeSnoc(idx, i);
    var ext := idx + [i];
    forall j, k | 0 <= j < k < |ext| ensures ext[j] < ext[k] {
      if k < |idx| {
        assert ext[j] == idx[j] && ext[k] == idx[k];
      } else {
        assert ext[j] == idx[j];
      }
    }
  }

  lemma SumsSnoc(s: seq<Stock>, idx: seq<int>, j: int)
    requires InRange(idx, |s|) && 0 <= j < |s|
    ensures InRange(idx + [j], |s|)
    ensures Cost(s, idx + [j]) == Cost(s, idx) + Weight(s[j])
    ensures Gain(s, idx + [j]) == Gain(s, idx) + s[j].expectedReturn
  {
    assert (idx + [j])[..|idx|] == idx;
  }

  lemma PickSnoc(s: seq<Stock>, idx: seq<int>, j: int)
    requires InRange(idx, |s|) && 0 <= j < |s|
    ensures InRange(idx + [j], |s|)
    ensures Pick(s, idx + [j]) == Pick(s, idx) + [s[j]]
  {
    assert Pick(s, idx + [j]) == Pick(s, idx) + [s[j]];
  }

  lemma PickCons(s: seq<Stock>, j: int, idx: seq<int>)
    requires InRange(idx, |s|) && 0 <= j < |s|
    ensures InRange([j] + idx, |s|)
    ensures Pick(s, [j] + idx) == [s[j]] + Pick(s, idx)
  {
    assert Pick(s, [j] + idx) == [s[j]] + Pick(s, idx);
  }

  /** The folds over the picked stocks are the sums over their positions. */
  lemma {:induction false} PickSums(s: seq<Stock>, idx: seq<int>)
    requires InRange(idx, |s|)
    ensures FlooredCost(Pick(s, idx)) == Cost(s, idx)
    ensures TotalReturn(Pick(s, idx)) == Gain(s, idx)
    decreases |idx|
  {
    if idx == [] {
      assert Pick(s, idx) == [];
    } else {
      var init := idx[..|idx| - 1];
      PickSums(s, init);
      PickSnoc(s, init, idx[|idx| - 1]);
      assert init + [idx[|idx| - 1]] == idx;
      var xs := Pick(s, idx);
      assert xs[..|xs| - 1] == Pick(s, init);
    }
  }

  lemma {:induction false} CostNonNegative(s: seq<Stock>, idx: seq<int>)
    requires NonNegativePrices(s) && InRange(idx, |s|)
    ensures 0 <= Cost(s, idx)
    decreases |idx|
  {
    if idx != [] {
      var init := idx[..|idx| - 1];
      CostNonNegative(s, init);
      assert 0.0 <= s[idx[|idx| - 1]].price;
    }
  }

  // ---------------------------------------------------------------------------
  // The dynamic-programming table and the backtracking pass, as functions
  // ---------------------------------------------------------------------------

  /** The table entry dp[i][w]: the recurrence the optimizer fills row by row. */
  function Best(s: seq<Stock>, i: nat, w: int): (b: real)
    requires i <= |s|
    ensures 0 <= w ==> 0.0 <= b
  {
    if i == 0 then 0.0
    else
      var p := Weight(s[i - 1]);
      if p <= w then Max(Best(s, i - 1, w), Best(s, i - 1, w - p) + s[i - 1].expectedReturn)
      else Best(s, i - 1, w)
  }

  /** The positions the backtracking pass selects, starting from row `i` and
      remaining capacity `w`; it stops at row 0 or when no capacity is left. */
  function Trace(s: seq<Stock>, i: nat, w: int): (t: seq<int>)
    requires i <= |s|
    ensures InRange(t, i)
  {
    if i == 0 || w <= 0 then []
    else if Best(s, i, w) != Best(s, i - 1, w) then
      var t := Trace(s, i - 1, w - Weight(s[i - 1]));
      InRangeSnoc(t, i - 1);
      t + [i - 1]
    else Trace(s, i - 1, w)
  }

  /** The same walk through the table without the early stop at zero capacity:
      a selection that attains the table entry. */
  ghost function Attaining(s: seq<Stock>, i: nat, w: int): (t: seq<int>)
    requires i <= |s|
    ensures InRange(t, i)
  {
    if i == 0 then []
    else if Best(s, i, w) != Best(s, i - 1, w) then
      var t := Attaining(s, i - 1, w - Weight(s[i - 1]));
      InRangeSnoc(t, i - 1);
      t + [i - 1]
    else Attaining(s, i - 1, w)
  }

  /** Taking stock i-1 happens only when it fits, and then it accounts for the entry. */
  lemma BestTakes(s: seq<Stock>, i: nat, w: int)
    requires 0 < i <= |s| && Best(s, i, w) != Best(s, i - 1, w)
    ensures Weight(s[i - 1]) <= w
    ensures Best(s, i, w) == Best(s, i - 1, w - Weight(s[i - 1])) + s[i - 1].expectedReturn
  {
  }

  /** A step of the backtracking walk that takes stock i-1. */
  lemma TraceTakes(s: seq<Stock>, i: nat, w: int)
    requires 0 < i <= |s| && 0 < w && Best(s, i, w) != Best(s, i - 1, w)
    ensures Trace(s, i, w) == Trace(s, i - 1, w - Weight(s[i - 1])) + [i - 1]
  {
  }

  /** A step of the backtracking walk that leaves stock i-1 out. */
  lemma TraceSkips(s: seq<Stock>, i: nat, w: int)
    requires 0 < i <= |s| && 0 < w && Best(s, i, w) == Best(s, i - 1, w)
    ensures Trace(s, i, w) == Trace(s, i - 1, w)
  {
  }

  /** A step of the walk without the early stop that takes stock i-1. */
  lemma AttainingTakes(s: seq<Stock>, i: nat, w: int)
    requires 0 < i <= |s| && Best(s, i, w) != Best(s, i - 1, w)
    ensures Attaining(s, i, w) == Attaining(s, i - 1, w - Weight(s[i - 1])) + [i - 1]
  {
  }

  /** A step of the walk without the early stop that leaves stock i-1 out. */
  lemma AttainingSkips(s: seq<Stock>, i: nat, w: int)
    requires 0 < i <= |s| && Best(s, i, w) == Best(s, i - 1, w)
    ensures Attaining(s, i, w) == Attaining(s, i - 1, w)
  {
  }

  /** One step of the backtracking loop that takes stock i-1: the remaining capacity
      stays non-negative, and the stocks pushed so far, read back to front, stay the
      stocks at the positions taken so far. */
  lemma BacktrackTakes(s: seq<Stock>, i: nat, w: int, taken: seq<int>, picked: seq<Stock>)
    requires 0 < i <= |s| && 0 < w && Best(s, i, w) != Best(s, i - 1, w)
    requires InRange(taken, |s|) && Reverse(picked) == Pick(s, taken)
    ensures Weight(s[i - 1]) <= w
    ensures InRange([i - 1] + taken, |s|)
    ensures Trace(s, i, w) + taken == Trace(s, i - 1, w - Weight(s[i - 1])) + ([i - 1] + taken)
    ensures Reverse(picked + [s[i - 1]]) == Pick(s, [i - 1] + taken)
  {
    BestTakes(s, i, w);
    TraceTakes(s, i, w);
    ReverseSnoc(picked, s[i - 1]);
    PickCons(s, i - 1, taken);
  }

  /** No selection of the first `i` stocks that fits in capacity `w` returns more than dp[i][w]. */
  lemma {:induction false} BestIsUpperBound(s: seq<Stock>, i: nat, w: int, idx: seq<int>)
    requires i <= |s| && NonNegativePrices(s)
    requires IsSelection(idx, i) && Cost(s, idx) <= w
    ensures Gain(s, idx) <= Best(s, i, w)
  {
    if idx != [] {
      if idx[|idx| - 1] == i - 1 {
        var rest := idx[..|idx| - 1];
        var p := Weight(s[i - 1]);
        SplitLast(s, i, idx);
        CostNonNegative(s, rest);
        BestIsUpperBound(s, i - 1, w - p, rest);
        BestTakeBound(s, i, w);
      } else {
        LastNotTaken(idx, i);
        BestIsUpperBound(s, i - 1, w, idx);
        BestSkipBound(s, i, w);
      }
    }
  }

  /** A selection ending with stock i-1 is a selection of the first i-1 stocks plus that stock. */
  lemma SplitLast(s: seq<Stock>, i: nat, idx: seq<int>)
    requires i <= |s| && IsSelection(idx, i) && idx != [] && idx[|idx| - 1] == i - 1
    ensures IsSelection(idx[..|idx| - 1], i - 1)
    ensures Cost(s, idx) == Cost(s, idx[..|idx| - 1]) + Weight(s[i - 1])
    ensures Gain(s, idx) == Gain(s, idx[..|idx| - 1]) + s[i - 1].expectedReturn
  {
  }

  /** A selection of the first i stocks that does not end with stock i-1 leaves it out. */
  lemma LastNotTaken(idx: seq<int>, i: nat)
    requires IsSelection(idx, i) && idx != [] && idx[|idx| - 1] != i - 1
    ensures IsSelection(idx, i - 1)
  {
    forall k | 0 <= k < |idx| ensures idx[k] < i - 1 {
      assert idx[k] <= idx[|idx| - 1];
    }
  }

  /** Taking stock i-1 when it fits never gives more than dp[i][w]. */
  lemma BestTakeBound(s: seq<Stock>, i: nat, w: int)
    requires 0 < i <= |s| && Weight(s[i - 1]) <= w
    ensures Best(s, i - 1, w - Weight(s[i - 1])) + s[i - 1].expectedReturn <= Best(s, i, w)
  {
  }

  /** Leaving stock i-1 out never gives more than dp[i][w]. */
  lemma BestSkipBound(s: seq<Stock>, i: nat, w: int)
    requires 0 < i <= |s|
    ensures Best(s, i - 1, w) <= Best(s, i, w)
  {
  }

  /** The walk without the early stop picks distinct stocks in input order. */
  lemma {:induction false} AttainingIsSelection(s: seq<Stock>, i: nat, w: int)
    requires i <= |s|
    ensures IsSelection(Attaining(s, i, w), i)
  {
    if i > 0 {
      if Best(s, i, w) != Best(s, i - 1, w) {
        var rest := Attaining(s, i - 1, w - Weight(s[i - 1]));
        AttainingTakes(s, i, w);
        AttainingIsSelection(s, i - 1, w - Weight(s[i - 1]));
        SelectionSnoc(rest, i - 1);
      } else {
        AttainingSkips(s, i, w);
        AttainingIsSelection(s, i - 1, w);
      }
    }
  }

  /** The walk without the early stop finds a selection that fits in `w` and returns exactly dp[i][w]. */
  lemma {:induction false} AttainingAchievesBest(s: seq<Stock>, i: nat, w: int)
    requires i <= |s| && 0 <= w
    ensures Cost(s, Attaining(s, i, w)) <= w
    ensures Gain(s, Attaining(s, i, w)) == Best(s, i, w)
  {
    if i > 0 {
      if Best(s, i, w) != Best(s, i - 1, w) {
        BestTakes(s, i, w);
        AttainingTakes(s, i, w);
        var rest := Attaining(s, i - 1, w - Weight(s[i - 1]));
        AttainingAchievesBest(s, i - 1, w - Weight(s[i - 1]));
        SumsSnoc(s, rest, i - 1);
      } else {
        AttainingSkips(s, i, w);
        AttainingAchievesBest(s, i - 1, w);
      }
    }
  }

  /** dp[n][W] is the largest summed expected return over all selections, each
      stock used at most once, whose rounded-down prices sum to at most W. */
  lemma MaxValueIsOptimal(s: seq<Stock>, W: int)
    requires NonNegativePrices(s) && 0 <= W
    ensures forall idx :: IsSelection(idx, |s|) && Cost(s, idx) <= W ==> Gain(s, idx) <= Best(s, |s|, W)
    ensures exists idx :: IsSelection(idx, |s|) && Cost(s, idx) <= W && Gain(s, idx) == Best(s, |s|, W)
  {
    forall idx | IsSelection(idx, |s|) && Cost(s, idx) <= W
      ensures Gain(s, idx) <= Best(s, |s|, W)
    {
      BestIsUpperBound(s, |s|, W, idx);
    }
    AttainingAchievesBest(s, |s|, W);
    AttainingIsSelection(s, |s|, W);
  }

  /** Backtracking picks distinct stocks and keeps them in input order. */
  lemma {:induction false} TraceIsSelection(s: seq<Stock>, i: nat, w: int)
    requires i <= |s|
    ensures IsSelection(Trace(s, i, w), i)
  {
    if i > 0 && w > 0 {
      if Best(s, i, w) != Best(s, i - 1, w) {
        var rest := Trace(s, i - 1, w - Weight(s[i - 1]));
        TraceTakes(s, i, w);
        TraceIsSelection(s, i - 1, w - Weight(s[i - 1]));
        SelectionSnoc(rest, i - 1);
      } else {
        TraceSkips(s, i, w);
        TraceIsSelection(s, i - 1, w);
      }
    }
  }

  /** A stock is only taken when its rounded-down price fits in what is left, so
      the capacity never goes negative and the selection's rounded-down prices
      sum to at most the capacity. */
  lemma {:induction false} TraceWithinCapacity(s: seq<Stock>, i: nat, w: int)
    requires i <= |s| && 0 <= w
    ensures Cost(s, Trace(s, i, w)) <= w
  {
    if i > 0 && w > 0 {
      if Best(s, i, w) != Best(s, i - 1, w) {
        var rest := Trace(s, i - 1, w - Weight(s[i - 1]));
        BestTakes(s, i, w);
        TraceTakes(s, i, w);
        TraceWithinCapacity(s, i - 1, w - Weight(s[i - 1]));
        SumsSnoc(s, rest, i - 1);
      } else {
        TraceSkips(s, i, w);
        TraceWithinCapacity(s, i - 1, w);
      }
    }
  }

  /** When every stock weighs at least one unit, a walk with no capacity takes nothing. */
  lemma {:induction false} ZeroCapacityTakesNothing(s: seq<Stock>, i: nat)
    requires i <= |s| && PositiveWeights(s)
    ensures Attaining(s, i, 0) == []
  {
    if i > 0 {
      assert 1 <= Weight(s[i - 1]);
      ZeroCapacityTakesNothing(s, i - 1);
    }
  }

  /** When every stock weighs at least one unit, stopping at zero capacity loses nothing. */
  lemma {:induction false} TraceIsAttaining(s: seq<Stock>, i: nat, w: int)
    requires i <= |s| && PositiveWeights(s) && 0 <= w
    ensures Trace(s, i, w) == Attaining(s, i, w)
  {
    if i > 0 {
      if w == 0 {
        ZeroCapacityTakesNothing(s, i);
      } else if Best(s, i, w) != Best(s, i - 1, w) {
        TraceTakes(s, i, w);
        AttainingTakes(s, i, w);
        TraceIsAttaining(s, i - 1, w - Weight(s[i - 1]));
      } else {
        TraceSkips(s, i, w);
        AttainingSkips(s, i, w);
        TraceIsAttaining(s, i - 1, w);
      }
    }
  }

  /** With every rounded-down price at least one, the backtracked stocks return exactly dp[n][W]. */
  lemma TraceAttainsBest(s: seq<Stock>, W: int)
    requires PositiveWeights(s) && 0 <= W
    ensures Gain(s, Trace(s, |s|, W)) == Best(s, |s|, W)
  {
    TraceIsAttaining(s, |s|, W);
    AttainingAchievesBest(s, |s|, W);
  }

  /** A stock whose price rounds down to zero can be left out: the walk stops as
      soon as the capacity is spent, so the selection returns less than dp[n][W]. */
  lemma ZeroWeightStockIsMissed()
    ensures var s := [Stock("A", 0.5, 10.0), Stock("B", 1.0, 5.0)];
      && Best(s, 2, 1) == 15.0
      && Trace(s, 2, 1) == [1]
      && Gain(s, Trace(s, 2, 1)) == 5.0
  {
    var s := [Stock("A", 0.5, 10.0), Stock("B", 1.0, 5.0)];
    assert Weight(s[0]) == 0 && Weight(s[1]) == 1;
    assert Best(s, 1, 0) == 10.0 && Best(s, 1, 1) == 10.0;
    assert Trace(s, 1, 0) == [];
    SumsSnoc(s, [], 1);
  }

  /** With whole prices the money spent never exceeds the rounded-down budget. */
  lemma WholePricesStayWithinBudget(s: seq<Stock>, W: int)
    requires WholePrices(s) && 0 <= W
    ensures TotalPrice(Pick(s, Trace(s, |s|, W))) <= W as real
  {
    var idx := Trace(s, |s|, W);
    TraceWithinCapacity(s, |s|, W);
    PickSums(s, idx);
    var xs := Pick(s, idx);
    forall k | 0 <= k < |xs| ensures 0.0 <= xs[k].price && xs[k].price == Weight(xs[k]) as real {
      assert xs[k] == s[idx[k]];
    }
    TotalPriceBounds(xs);
  }

  /** A fractional price is selected for its rounded-down weight, and then more
      money is spent than the rounded-down budget. */
  lemma FractionalPriceOverspends()
    ensures var s := [Stock("A", 1.5, 4.0)];
      && Trace(s, 1, 1) == [0]
      && TotalPrice(Pick(s, Trace(s, 1, 1))) == 1.5
  {
    var s := [Stock("A", 1.5, 4.0)];
    assert Weight(s[0]) == 1;
    assert Best(s, 1, 1) == 4.0;
    assert Pick(s, [0]) == [s[0]];
  }

  // ---------------------------------------------------------------------------
  // The optimizer
  // ---------------------------------------------------------------------------

  class KnapsackOptimizer {
    /** The budget, rounded down to a whole currency unit: the knapsack capacity W. */
    const budget: int
    const stocks: seq<Stock>

    constructor(budget: real, stocks: seq<Stock>)
      ensures this.budget == budget.Floor
      ensures this.budget as real <= budget < this.budget as real + 1.0
      ensures this.stocks == stocks
    {
      this.budget := budget.Floor;
      this.stocks := stocks;
    }

    /** Builds the (n+1) x (W+1) table bottom-up; row 0 stays all zeros. */
    method FillTable() returns (dp: array2<real>)
      requires 0 <= budget && NonNegativePrices(stocks)
      ensures fresh(dp)
      ensures dp.Length0 == |stocks| + 1 && dp.Length1 == budget + 1
      ensures forall w :: 0 <= w <= budget ==> dp[0, w] == 0.0
      ensures forall i, w :: 0 <= i <= |stocks| && 0 <= w <= budget ==> dp[i, w] == Best(stocks, i, w)
    {
      var n := |stocks|;
      var W := budget;
      dp := new real[n + 1, W + 1]((_, _) => 0.0);
      var i := 1;
      while i <= n
        invariant 1 <= i <= n + 1
        invariant forall a, b :: 0 <= a < i && 0 <= b <= W ==> dp[a, b] == Best(stocks, a, b)
      {
        FillRow(dp, i);
        i := i + 1;
      }
    }

    /** One pass of the inner loop: row i from row i-1, with stock i-1 either
        left out or added to the best entry that leaves room for it. */
    method FillRow(dp: array2<real>, i: nat)
      requires 1 <= i <= |stocks| && 0 <= budget && NonNegativePrices(stocks)
      requires dp.Length0 == |stocks| + 1 && dp.Length1 == budget + 1
      requires forall a, b :: 0 <= a < i && 0 <= b <= budget ==> dp[a, b] == Best(stocks, a, b)
      modifies dp
      ensures forall b :: 0 <= b <= budget ==> dp[i, b] == Best(stocks, i, b)
      ensures forall a, b :: 0 <= a < dp.Length0 && a != i && 0 <= b < dp.Length1 ==> dp[a, b] == old(dp[a, b])
    {
      var W := budget;
      var stock := stocks[i - 1];
      var price := stock.price.Floor;
      var value := stock.expectedReturn;
      var w := 0;
      while w <= W
        invariant 0 <= w <= W + 1
        invariant forall b :: 0 <= b < w ==> dp[i, b] == Best(stocks, i, b)
        invariant forall a, b :: 0 <= a < dp.Length0 && a != i && 0 <= b < dp.Length1 ==> dp[a, b] == old(dp[a, b])
      {
        if price <= w {
          dp[i, w] := Max(dp[i - 1, w], dp[i - 1, w - price] + value);
        } else {
          dp[i, w] := dp[i - 1, w];
        }
        w := w + 1;
      }
    }

    /** Walks the rows from n down to 1 while capacity is left, taking stock i
        whenever dp[i][w] differs from dp[i-1][w]; returns the stocks in the
        order they were taken (last input first). */
    method Backtrack(dp: array2<real>) returns (picked: seq<Stock>)
      requires 0 <= budget && NonNegativePrices(stocks)
      requires dp.Length0 == |stocks| + 1 && dp.Length1 == budget + 1
      requires forall i, w :: 0 <= i <= |stocks| && 0 <= w <= budget ==> dp[i, w] == Best(stocks, i, w)
      ensures Reverse(picked) == Pick(stocks, Trace(stocks, |stocks|, budget))
    {
      picked := [];
      ghost var taken: seq<int> := [];
      var w := budget;
      var i := |stocks|;
      while i > 0 && w > 0
        invariant 0 <= i <= |stocks| && 0 <= w <= budget
        invariant InRange(taken, |stocks|)
        invariant Trace(stocks, |stocks|, budget) == Trace(stocks, i, w) + taken
        invariant Reverse(picked) == Pick(stocks, taken)
      {
        assert dp[i, w] == Best(stocks, i, w) && dp[i - 1, w] == Best(stocks, i - 1, w);
        if dp[i, w] != dp[i - 1, w] {
          var stock := stocks[i - 1];
          BacktrackTakes(stocks, i, w, taken, picked);
          picked := picked + [stock];
          w := w - stock.price.Floor;
          taken := [i - 1] + taken;
        } else {
          TraceSkips(stocks, i, w);
        }
        i := i - 1;
      }
    }

    /** Runs the optimization: fills the table, backtracks, and totals the selection. */
    method Optimize() returns (r: Portfolio)
      requires 0 <= budget && NonNegativePrices(stocks)
      ensures r.maxValue == Best(stocks, |stocks|, budget)
      ensures forall idx :: IsSelection(idx, |stocks|) && Cost(stocks, idx) <= budget ==>
                Gain(stocks, idx) <= r.maxValue
      ensures exists idx :: IsSelection(idx, |stocks|) && Cost(stocks, idx) <= budget &&
                Gain(stocks, idx) == r.maxValue
      ensures IsSelection(Trace(stocks, |stocks|, budget), |stocks|)
      ensures r.selectedStocks == Pick(stocks, Trace(stocks, |stocks|, budget))
      ensures FlooredCost(r.selectedStocks) <= budget
      ensures r.totalInvestment == TotalPrice(r.selectedStocks)
      ensures r.totalReturn == TotalReturn(r.selectedStocks)
      ensures r.remainingBudget == budget as real - r.totalInvestment
      ensures PositiveWeights(stocks) ==> r.totalReturn == r.maxValue
      ensures WholePrices(stocks) ==> 0.0 <= r.remainingBudget
      ensures stocks == [] ==> r == Portfolio([], 0.0, 0.0, budget as real, 0.0)
    {
      var dp := FillTable();
      var picked := Backtrack(dp);
      var totalInvestment := TotalPrice(picked);
      var totalReturn := TotalReturn(picked);
      var remainingBudget := budget as real - totalInvestment;
      var selected := Reverse(picked);
      r := Portfolio(selected, totalInvestment, totalReturn, remainingBudget, dp[|stocks|, budget]);

      MaxValueIsOptimal(stocks, budget);
      TraceIsSelection(stocks, |stocks|, budget);
      TraceWithinCapacity(stocks, |stocks|, budget);
      PickSums(stocks, Trace(stocks, |stocks|, budget));
      if PositiveWeights(stocks) {
        TraceAttainsBest(stocks, budget);
      }
      if WholePrices(stocks) {
        WholePricesStayWithinBudget(stocks, budget);
      }
      if stocks == [] {
        assert Pick(stocks, []) == [];
      }
    }
  }
}
