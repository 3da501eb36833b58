# Stock-investment knapsack optimizer

This project models `KnapsackOptimizer`, the part of the stock-portfolio tool that
picks which stocks to buy with a budget. It is a 0/1 knapsack:

- the capacity `W` is the budget rounded down;
- each stock's weight is its share price rounded down;
- each stock's value is its expected return, a percentage;
- each stock is bought at most once.

A bottom-up table `dp[i][w]` is filled. A backtracking pass then walks the rows from
`n` down to `1` and takes stock `i` whenever `dp[i][w]` differs from `dp[i-1][w]`.
Finally the unrounded prices and the returns of the chosen stocks are summed.

The model is one module, `Knapsack` (`knapsack.dfy`):

- `Stock` and `Portfolio` are the input record and the result record.
- `Best(s, i, w)` is the table recurrence. `Trace(s, i, w)` is the backtracking
  pass, with its stop when no capacity is left. `Attaining` is the same walk
  without that stop. It is the witness that the table's last entry is reached.
- `TotalPrice`, `TotalReturn` (the two `reduce` folds) and `FlooredCost` (the
  rounded-down prices) sum over a list of stocks. A subset of the stocks is an
  increasing list of positions (`IsSelection`), and `Pick` turns it into stocks.
- The class `KnapsackOptimizer` keeps the rounded budget and the stock list. Its
  `Optimize` fills an `array2<real>` with nested loops (`FillTable`). It walks
  the table with a while loop that pushes onto a list (`Backtrack`). Then it
  totals and reverses the list.

The optimizer is a 0/1 knapsack that adds up percentage returns. It does not let a
stock be bought more than once, and it does not weigh returns by the money invested.
The model follows the code.

## Model

The optimality statements sum over lists of positions: `Cost` adds up the rounded
prices of the selected stocks and `Gain` their expected returns. `PickSums` ties these
sums to the folds over the selected stocks themselves.

| member | source | states |
|---|---|---|
| `Knapsack.KnapsackOptimizer.constructor` | knapsack.js:3-6 | the stored budget is the given budget rounded down, and the stock list is kept as given |
| `Knapsack.KnapsackOptimizer.FillTable` | knapsack.js:10-32 | the table is a newly allocated array of `n+1` rows of `W+1` entries, row 0 is all zeros, and every entry equals the 0/1 recurrence `Best` |
| `Knapsack.KnapsackOptimizer.FillRow` | knapsack.js:18-31 | one pass of the inner loop makes row `i` equal to the recurrence, given correct rows above it, and changes no other row |
| `Knapsack.KnapsackOptimizer.Backtrack` | knapsack.js:34-44 | the stocks pushed by the walk, read back to front, are exactly the stocks at the positions `Trace` selects |
| `Knapsack.KnapsackOptimizer.Optimize` | knapsack.js:9-57 | `maxValue` is `dp[n][W]` and is the best summed return over all subsets that fit. The selection is a subsequence of the input that fits in `W`. The two totals are the sums of unrounded prices and of returns. `remainingBudget = W - totalInvestment`. `totalReturn = maxValue` when every rounded price is at least 1. `remainingBudget >= 0` when prices are whole. An empty list gives an empty result |
| `Knapsack.Max` | knapsack.js:24-27 | the larger of two entries is at least both and is one of them |
| `Knapsack.Trace` | knapsack.js:38-44 | every backtracked position is one of the first `i` stocks |
| `Knapsack.BacktrackTakes` | knapsack.js:39-42 | when a stock is taken, its rounded price fits the capacity left, so `w` never goes negative, and the pushed list stays the taken positions' stocks in reverse |
| `Knapsack.TraceIsSelection` | knapsack.js:38-44 | the backtracked positions are distinct and increasing, so each stock appears at most once and in input order |
| `Knapsack.AttainingIsSelection` | knapsack.js:38-44 | the walk without the zero-capacity stop also selects each stock at most once, in input order |
| `Knapsack.TraceWithinCapacity` | knapsack.js:36-44 | a stock is taken only when its rounded price fits the capacity left, so the rounded prices of the selection sum to at most the capacity |
| `Knapsack.Weight` | knapsack.js:19 | a stock's knapsack weight is its price rounded down: at most the price and more than the price minus one, and never negative for a price of at least 0 |
| `Knapsack.Best` | knapsack.js:14-31 | defines the entry `dp[i][w]` by the 0/1 recurrence of the table fill. Its contract says that with capacity at least 0 no entry is negative, since the empty subset always fits. Its other properties are stated by `FillTable` (the array holds it), `BestIsUpperBound` and `AttainingAchievesBest` (both halves of optimality) and `MaxValueIsOptimal` |
| `Knapsack.TotalPrice` | knapsack.js:47 | the `reduce` over prices, summed from the first stock; it equals the sum taken over the reversed list |
| `Knapsack.TotalReturn` | knapsack.js:48 | the `reduce` over expected returns, summed from the first stock; it equals the sum taken over the reversed list |
| `Knapsack.BestIsUpperBound` | knapsack.js:17-32 | no subset of the first `i` stocks whose rounded prices fit in `w` returns more than `dp[i][w]` |
| `Knapsack.AttainingAchievesBest` | knapsack.js:17-32 | some subset of the first `i` stocks fits in `w` and returns exactly `dp[i][w]` |
| `Knapsack.MaxValueIsOptimal` | knapsack.js:8-32 | `dp[n][W]` is the maximum summed return over all subsets, each stock used at most once, whose rounded prices sum to at most `W`, and some such subset reaches it |
| `Knapsack.ZeroCapacityTakesNothing` | knapsack.js:23-29 | when every rounded price is at least 1, a walk that starts with no capacity selects nothing |
| `Knapsack.TraceIsAttaining` | knapsack.js:38-44 | when every rounded price is at least 1, stopping the walk at zero capacity gives the same selection as walking every row |
| `Knapsack.TraceAttainsBest` | knapsack.js:38-48 | when every rounded price is at least 1, the backtracked stocks' summed return equals `dp[n][W]` |
| `Knapsack.ZeroWeightStockIsMissed` | knapsack.js:38-44 | with a stock priced 0.5 (rounded price 0), the walk stops at zero capacity and misses it: total return 5 against `dp[n][W]` = 15 |
| `Knapsack.Reverse` | knapsack.js:52 | the reversed list has the same length and holds element `|xs|-1-k` at position `k` |
| `Knapsack.SumByPrepend` | knapsack.js:47-48 | the left fold over `[x] + xs` is `f(x)` plus the fold over `xs` |
| `Knapsack.SumByReverse` | knapsack.js:47-52 | a total computed before the list is reversed equals the total of the reversed list |
| `Knapsack.PickSums` | knapsack.js:47-48 | the folds over the selected stocks equal the sums over their positions |
| `Knapsack.CostNonNegative` | knapsack.js:19 | with non-negative prices, rounded prices sum to at least 0 |
| `Knapsack.TotalPriceBounds` | knapsack.js:47 | the unrounded total is at least the rounded total and below it plus one per stock; the two are equal with whole prices |
| `Knapsack.WholePricesStayWithinBudget` | knapsack.js:47-49 | with whole, non-negative prices, the money invested never exceeds the rounded budget, so `remainingBudget >= 0` |
| `Knapsack.FractionalPriceOverspends` | knapsack.js:47-49 | a stock priced 1.5 fits a rounded budget of 1 by its rounded price and is selected, so 1.5 is invested and the remaining budget is negative |

## Left out

- The browser front end (`app.js`) is not part of this model. This covers table rendering, input handlers, alerts, the bar chart and `toFixed` formatting.
- The front end's editing of the shared stock list (push, splice, field writes) is not modelled. The optimizer receives the list as an immutable sequence value, so aliasing with that list is not captured.
- Floating point is not modelled. Prices, returns and table entries are exact reals. `dp[i][w] !== dp[i-1][w]` is exact real inequality. Floating-point rounding in sums, `NaN` from empty inputs and `parseFloat` are not captured.
- `Knapsack.KnapsackOptimizer.Optimize`, `FillTable` and `Backtrack` require a budget of at least 0. The front end only calls the optimizer with a budget above 0. With a rounded budget of exactly -1, the source builds rows of length 0 and `maxValue` is `dp[n][-1]`, which is `undefined`. With a rounded budget below -1, `Array(W + 1)` throws a `RangeError` before any table exists.
- `Knapsack.KnapsackOptimizer.Optimize`, `FillTable` and `Backtrack` require prices of at least 0. With a negative rounded price, the index `w - price` is larger than `w`, so the source reads past the end of row `i-1`. Every index above `W` gives `undefined`, and `Math.max` then returns `NaN`.
- `selectedStocks.reverse()` reverses the list in place. It is modelled as the value `Reverse(picked)`, since no other reference to that list exists.
