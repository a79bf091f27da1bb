# Simple moving average over a daily price series

This project models, in Dafny, the computational core of a small Rust program
that fetches a stock's daily time series and prints a simple moving average
(SMA). The core has two parts:

- `SmaCalculator` (src/main.rs:5-34). It holds a window of prices with capacity
  `window_size`. `add_price` pops the front when the window is full, then pushes
  the new price at the back. `get_simple_moving_average` answers
  `Some(sum / window_size)` exactly when the window holds `window_size` prices,
  and `None` otherwise.
- The body of `main` once the series is fetched (src/main.rs:46-62). It
  collects the `HashMap` from "YYYY-MM-DD" keys to daily prices into a vector.
  It sorts the vector by key, greatest first, and keeps the first `series_size`
  (30) entries. Their closes go, in that order, into a calculator with window 5,
  with one average query after each insertion.

Files and modules:

- `sma_window.dfy`, module `SmaWindow`. It defines functions on sequences for
  one `add_price` step (`Pushed`), a whole stream of them (`Feed`), the query
  (`Average`) and the answers after each insertion (`Trace`). It also defines the
  class `SmaCalculator`. Its `prices` field is a `seq<real>` that `AddPrice`
  reassigns in place. A ghost `history` records every price added, and `Valid()`
  ties the window to `Feed(windowSize, history)`.
- `date_order.dfy`, module `DateOrder`. `Below` is Rust's `String` ordering.
  Rust compares the UTF-8 bytes, which gives the same order as comparing code
  points character by character, with a proper prefix first. The module proves
  that `Below` is a strict total order and that it is chronological on
  "YYYY-MM-DD" keys.
- `selection.dfy`, module `Selection`. `Collect` models `iter().collect()`, which
  visits the map in an unspecified order, by picking the next key
  nondeterministically. `SortByDateDesc` is a functional insertion sort that
  stands for `sort_by(|a, b| b.0.cmp(a.0))`. `SelectPrices` is the `take` /
  `push` loop. `IsRecentSelection` is the specification: the `n` greatest keys,
  strictly descending.
- `pipeline.dfy`, module `Pipeline`. `FeedCalculator` is the loop at lines 56-62.
  `SmaOfRecentDays` and `RunMain` are the success branch of `main`. They return
  the sequence of answers that `main` prints, one per price. They also return
  the selected dates, which `main` never prints, so that the contracts can name
  the days the prices come from.

Prices are exact `real`s, so "the average is the mean of the last w prices"
holds exactly. The `f32` code computes the same values up to rounding.

In these places the model follows the code, where a reader might expect
otherwise:

- The code feeds the calculator most-recent-first, with no reversal to
  chronological order (`AnswerCoversMoreRecentDays`).
- The code accepts `window_size == 0`. With capacity 0 the window grows without
  bound and the query never answers after an insertion (`FeedZeroCapacity`,
  `TraceZeroCapacity`).
- A malformed close among the `series_size` selected days makes the code panic
  in `unwrap`. It does not return a typed parse error.
- The code derives no Up/Down signal.

## Model

| member | source | states |
|---|---|---|
| SmaWindow.SmaCalculator.constructor | src/main.rs:11-16 | `new(w)` gives an empty window of capacity `w`, for every `w`, 0 included |
| SmaWindow.SmaCalculator.AddPrice | src/main.rs:18-24 | pops the front only when the window is full, then appends. The capacity is a constant field. For `w > 0` the window becomes the last `w` prices added and never exceeds `w` |
| SmaWindow.SmaCalculator.SimpleMovingAverage | src/main.rs:26-33 | reads the window and changes nothing. For `w > 0` it answers iff at least `w` prices were added, and the answer is the mean of the last `w` of them. For `w = 0` and a non-empty window it is `None` |
| SmaWindow.Average | src/main.rs:26-33 | the query answers `Some` iff the window's length equals the capacity, and its value is then the mean of the window |
| SmaWindow.PopFront | src/main.rs:20 | `pop_front` removes exactly the front element of a non-empty queue, and leaves an empty queue empty |
| SmaWindow.Pushed | src/main.rs:18-24 | one `add_price` step: the new price ends up at the back; the length stays the same when the window is full and non-empty, and grows by one otherwise |
| SmaWindow.Sum | src/main.rs:28 | the total of the window's prices, added front to back as `iter().sum()` does. It carries no contract of its own; `SumAppend` and `SumBounds` state its properties |
| SmaWindow.SumBounds | src/main.rs:28 | when every price lies in [lo, hi], the sum of n prices lies in [n·lo, n·hi] |
| SmaWindow.SumAppend | src/main.rs:28 | the sum of the prices (`iter().sum()`, added front to back) is additive over any split of the window |
| SmaWindow.AverageAfterFeed | src/main.rs:18-33 | for `w > 0`, the query after feeding a stream is `None` while fewer than `w` prices were fed, and otherwise the mean of the last `w` prices |
| SmaWindow.AverageWithinRange | src/main.rs:26-29 | for `w > 0`, a full window's average lies between any lower and upper bound of its prices |
| SmaWindow.Feed | src/main.rs:18-24 | after a stream of insertions the window is no longer than the stream, and its back is the last price inserted |
| SmaWindow.PushedKeepsLast | src/main.rs:18-24 | for `w > 0`, one insertion into a window within capacity yields the last `w` prices of the window with the new price appended. The length becomes min(old + 1, w) |
| SmaWindow.FeedKeepsLast | src/main.rs:18-24 | FIFO eviction: for `w > 0`, the window after inserting p1..pn is the last min(n, w) prices in insertion order |
| SmaWindow.FeedZeroCapacity | src/main.rs:11-24 | with capacity 0 nothing is evicted: the window is every price inserted |
| SmaWindow.OlderPricesForgotten | src/main.rs:18-28 | for `w > 0`, prices inserted more than `w` insertions ago change neither the window nor the average |
| SmaWindow.Trace | src/main.rs:56-61 | one answer per inserted price |
| SmaWindow.TraceAt | src/main.rs:18-33 | for `w > 0`, the answer after the (i+1)-th insertion is `None` while i + 1 < w. From the w-th insertion on it is the mean of exactly the last `w` prices |
| SmaWindow.TraceZeroCapacity | src/main.rs:18-33 | with capacity 0 every answer after an insertion is `None` |
| SmaWindow.FeedOneToFive | src/main.rs:18-33 | feeding 1, 2, 3, 4, 5 with capacity 3 answers None, None, 2, 3, 4 |
| DateOrder.Below | src/main.rs:47 | `String::cmp` as a strict order: a key that sorts before another differs from it and is not a longer extension of it |
| DateOrder.BelowIrreflexive | src/main.rs:47 | no key sorts before itself |
| DateOrder.BelowTransitive | src/main.rs:47 | the key order is transitive |
| DateOrder.BelowTotal | src/main.rs:47 | any two different keys are ordered one way or the other |
| DateOrder.BelowAsymmetric | src/main.rs:47 | two keys are never each before the other |
| DateOrder.DateKeyChronological | src/main.rs:47 | on "YYYY-MM-DD" keys the string order is exactly the chronological order of the dates |
| Selection.Collect | src/main.rs:46 | collecting the map yields each of its entries exactly once (distinct keys, every key, the map's close beside it), in an unspecified order |
| Selection.SortByDateDesc | src/main.rs:47 | the sort returns a permutation of its input |
| Selection.SortIsDescending | src/main.rs:47 | on entries with distinct keys the sorted vector is strictly descending by key |
| Selection.SortedIsUnique | src/main.rs:47 | two strictly descending orderings of the same entries are equal, so the sort's result does not depend on the map's iteration order |
| Selection.ClosesOf | src/main.rs:50-51 | one close per selected date, in the same order, each the series' close for that date |
| Selection.SortedPrefixIsRecent | src/main.rs:47-52 | the first `n` entries of the descending vector are the `n` greatest keys, or all keys when there are fewer, and the prices beside them are their closes |
| Selection.RecentSelectionIsUnique | src/main.rs:46-50 | only one sequence of dates is the `n` most recent in strictly descending order |
| Selection.SelectPrices | src/main.rs:46-52 | the pushed prices are the closes of the `series_size` most recent dates, most recent first. A shorter series gives all of its dates and is not an error |
| Pipeline.FeedCalculator | src/main.rs:54-62 | driving a fresh calculator with one `add_price` and one query per price gives exactly the answers `Trace` specifies |
| Pipeline.SmaOfRecentDays | src/main.rs:46-62 | the answers are those of the calculator fed with the closes of the `series_size` most recent days, in most-recent-first order |
| Pipeline.RunMain | src/main.rs:39-62 | the same with `main`'s constants, window 5 and 30 days |
| Pipeline.AnswerCoversMoreRecentDays | src/main.rs:49-61 | for `w > 0`, the answer for the i-th selected day is missing while i + 1 < w. Afterwards it is the mean of that day's close and the closes of the w − 1 days fed before it, all of which are more recent |
| Pipeline.MainFirstAnswer | src/main.rs:39-61 | with window 5 and at least 5 days, the first four answers are missing and the fifth is the mean of the five most recent closes |

## Left out

- src/financial_api_client.rs is not part of this model. It is the HTTP request (reqwest, async), the API key read from the environment, and the JSON decoding. The series it returns is a parameter: a `map<string, real>` from date key to close.
- The `#[tokio::main]` async plumbing, the `Err` branch that prints the fetch error (src/main.rs:64), and every `println!` (src/main.rs:44, 59-60) are I/O. `FeedCalculator` returns the sequence of answers that `main` prints.
- `parse::<f32>().unwrap()` (src/main.rs:51) is a library call, and it panics on malformed text. Closes are given already parsed. The other `DailyPrices` fields (open, high, low, volume) are not used by the core and are dropped.
- `f32` summation and division rounding (src/main.rs:28) are not modelled. Prices are exact reals.
- SmaWindow.Average: excludes one input, an empty window of capacity 0. There the code computes 0/0 (NaN in `f32`), which has no value in exact real arithmetic. Every other input, capacity 0 included, is modelled.
- SmaWindow.SmaCalculator.SimpleMovingAverage: excludes the same input, a query on an empty window of capacity 0. `main` never makes this query, because it always calls `add_price` before each query.
- The in-place sort of the vector (src/main.rs:47) is modelled by its result. `SortByDateDesc` is a functional insertion sort. `SortedIsUnique` shows that every correct sort of distinct keys gives the same result, so a stable merge sort does too. Rust's in-place mutation of the vector is not modelled.
- The `VecDeque` is modelled as a sequence field. Its ring-buffer layout and amortised cost are not modelled.
