/**
 The simple-moving-average window of `SmaCalculator` (src/main.rs): a bounded
 first-in-first-out queue of prices with capacity `windowSize`, and the average
 it reports once it is full.

 Prices are exact reals; the model states what the `f32` code computes up to
 rounding. The functions on sequences below describe one `add_price` step, a
 whole stream of them, and the query, and the lemmas say what they add up to:
 the window holds the last `windowSize` prices in insertion order, and the
 average is the mean of exactly those.
 */
module SmaWindow {

  datatype Option<T> = None | Some(value: T)

  function Min(a: int, b: int): int
  {
    if a <= b then a else b
  }

  /** The sum of the prices, added in insertion order as the iterator sum does. */
  function Sum(s: seq<real>): real
  {
    if s == [] then 0.0 else Sum(s[..|s| - 1]) + s[|s| - 1]
  }

  /** Summing two runs and adding the totals gives the sum of the whole run. */
  lemma {:induction false} SumAppend(a: seq<real>, b: seq<real>)
    ensures Sum(a + b) == Sum(a) + Sum(b)
  {
    if b != [] {
      var init := b[..|b| - 1];
      SumAppend(a, init);
      assert (a + b)[..|a + b| - 1] == a + init;
    } else {
      assert a + b == a;
    }
  }

  /** The mean of a non-empty run of prices. */
  function Mean(s: seq<real>): real
    requires s != []
  {
    Sum(s) / |s| as real
  }

  /** The last `n` elements of `s`, or all of `s` when it is shorter. */
  function LastN(s: seq<real>, n: nat): (r: seq<real>)
    ensures |r| == Min(n, |s|)
  {
    s[|s| - Min(n, |s|)..]
  }

  /** `VecDeque::pop_front`: drops the front element; an empty queue stays empty. */
  function PopFront(window: seq<real>): (rest: seq<real>)
    ensures window == [] ==> rest == []
    ensures window != [] ==> window == [window[0]] + rest
  {
    if window == [] then [] else window[1..]
  }

  /** The window after one `add_price(price)`: when the window holds `windowSize`
      prices its front is popped, then the price is appended at the back. */
  function Pushed(window: seq<real>, windowSize: nat, price: real): (next: seq<real>)
    ensures |next| == if |window| == windowSize && window != [] then |window| else |window| + 1
    ensures next[|next| - 1] == price
  {
    (if |window| == windowSize then PopFront(window) else window) + [price]
  }

  /** The window after `add_price` was called with each of `prices` in turn,
      starting from the empty window of `new`. */
  function Feed(windowSize: nat, prices: seq<real>): (window: seq<real>)
    ensures |window| <= |prices|
    ensures prices != [] ==> window != [] && window[|window| - 1] == prices[|prices| - 1]
  {
    if prices == [] then []
    else Pushed(Feed(windowSize, prices[..|prices| - 1]), windowSize, prices[|prices| - 1])
  }

  /** `get_simple_moving_average` on a window: the window's sum divided by the
      capacity when the window is full, and nothing otherwise. The one case the
      code leaves undefined, 0 / 0 on an empty window of capacity 0, is excluded. */
  function Average(window: seq<real>, windowSize: nat): (r: Option<real>)
    requires windowSize > 0 || window != []
    ensures r.Some? <==> |window| == windowSize
    ensures r.Some? ==> r.value == Mean(window)
  {
    if |window| == windowSize then Some(Sum(window) / windowSize as real) else None
  }

  /** What the query answers after each `add_price` when `prices` are fed one by one. */
  function Trace(windowSize: nat, prices: seq<real>): (averages: seq<Option<real>>)
    ensures |averages| == |prices|
  {
    if prices == [] then []
    else Trace(windowSize, prices[..|prices| - 1]) + [Average(Feed(windowSize, prices), windowSize)]
  }

  /** One insertion into a window that respects its capacity keeps exactly the
      last `windowSize` prices of the window followed by the new price: the
      length grows by one until it reaches the capacity and the front is evicted
      only from a full window. */
  lemma PushedKeepsLast(window: seq<real>, windowSize: nat, price: real)
    requires 0 < windowSize && |window| <= windowSize
    ensures Pushed(window, windowSize, price) == LastN(window + [price], windowSize)
    ensures |Pushed(window, windowSize, price)| == Min(|window| + 1, windowSize)
  {
  }

  /** FIFO eviction: after any stream of insertions into a window of positive
      capacity, the window is the last `min(n, windowSize)` prices in insertion
      order. */
  lemma {:induction false} FeedKeepsLast(windowSize: nat, prices: seq<real>)
    requires windowSize > 0
    ensures Feed(windowSize, prices) == LastN(prices, windowSize)
  {
    if prices != [] {
      var init, last := prices[..|prices| - 1], prices[|prices| - 1];
      FeedKeepsLast(windowSize, init);
      assert prices == init + [last];
      if |init| < windowSize {
        // not full yet: nothing is evicted
        assert LastN(init, windowSize) == init;
        assert LastN(prices, windowSize) == prices;
      } else {
        // full: the front of the last `windowSize` goes, the new price comes in
        var k := |init| - windowSize;
        assert LastN(init, windowSize) == init[k..];
        assert PopFront(init[k..]) == init[k + 1..];
        assert LastN(prices, windowSize) == prices[k + 1..];
        assert prices[k + 1..] == init[k + 1..] + [last];
      }
    }
  }

  /** Feeding one more price is one more `add_price` step; for a positive
      capacity the result is the last `windowSize` prices fed. */
  lemma FeedStep(windowSize: nat, prices: seq<real>, price: real)
    ensures Feed(windowSize, prices + [price]) == Pushed(Feed(windowSize, prices), windowSize, price)
    ensures windowSize > 0 ==> Feed(windowSize, prices + [price]) == LastN(prices + [price], windowSize)
    ensures windowSize > 0 ==> |Feed(windowSize, prices + [price])| <= windowSize
  {
    assert (prices + [price])[..|prices|] == prices;
    if windowSize > 0 {
      FeedKeepsLast(windowSize, prices + [price]);
    }
  }

  /** With capacity 0 nothing is ever evicted: the first insertion pops from an
      empty queue and every later one finds the length different from 0, so the
      window is every price fed so far. */
  lemma {:induction false} FeedZeroCapacity(prices: seq<real>)
    ensures Feed(0, prices) == prices
  {
    if prices != [] {
      FeedZeroCapacity(prices[..|prices| - 1]);
      assert prices == prices[..|prices| - 1] + [prices[|prices| - 1]];
    }
  }

  /** The window `Valid` ties to the history: the last `windowSize` prices for a
      positive capacity, every price for capacity 0. */
  lemma FeedOfHistory(windowSize: nat, history: seq<real>)
    ensures windowSize > 0 ==> Feed(windowSize, history) == LastN(history, windowSize)
    ensures windowSize == 0 ==> Feed(windowSize, history) == history
  {
    if windowSize > 0 {
      FeedKeepsLast(windowSize, history);
    } else {
      FeedZeroCapacity(history);
    }
  }

  /** Prices inserted more than `windowSize` insertions ago have no effect on the
      window, hence none on the average. */
  lemma OlderPricesForgotten(windowSize: nat, older: seq<real>, recent: seq<real>)
    requires windowSize > 0 && |recent| >= windowSize
    ensures Feed(windowSize, older + recent) == Feed(windowSize, recent)
    ensures Average(Feed(windowSize, older + recent), windowSize) == Average(Feed(windowSize, recent), windowSize)
  {
    FeedKeepsLast(windowSize, older + recent);
    FeedKeepsLast(windowSize, recent);
    var a, b := LastN(older + recent, windowSize), LastN(recent, windowSize);
    assert forall i :: 0 <= i < |a| ==> a[i] == b[i];
  }

  /** The answers for a prefix of the stream are a prefix of the answers. */
  lemma {:induction false} TracePrefix(windowSize: nat, prices: seq<real>, n: nat)
    requires n <= |prices|
    ensures Trace(windowSize, prices[..n]) == Trace(windowSize, prices)[..n]
  {
    if n < |prices| {
      var init := prices[..|prices| - 1];
      TracePrefix(windowSize, init, n);
      assert init[..n] == prices[..n];
    } else {
      assert prices[..n] == prices;
    }
  }

  /** The state machine of the query for a positive capacity `w`: after the
      (i+1)-th insertion it answers nothing while fewer than `w` prices have been
      seen, and from the `w`-th insertion on it answers the mean of exactly the
      last `w` prices. */
  lemma TraceAt(windowSize: nat, prices: seq<real>, i: nat)
    requires windowSize > 0 && i < |prices|
    ensures Trace(windowSize, prices)[i] ==
      if i + 1 < windowSize then None else Some(Mean(prices[i + 1 - windowSize..i + 1]))
  {
    var p := prices[..i + 1];
    TracePrefix(windowSize, prices, i + 1);
    assert Trace(windowSize, p)[i] == Trace(windowSize, prices)[i];
    TraceLast(windowSize, p);
    AverageAfterFeed(windowSize, p);
    if i + 1 >= windowSize {
      assert p[|p| - windowSize..] == prices[i + 1 - windowSize..i + 1];
    }
  }

  /** The last answer is the query on the window after every price was fed. */
  lemma TraceLast(windowSize: nat, prices: seq<real>)
    requires prices != []
    ensures Trace(windowSize, prices)[|prices| - 1] == Average(Feed(windowSize, prices), windowSize)
  {
  }

  /** The query after a positive-capacity window was fed `prices`: nothing while
      fewer than `windowSize` prices were fed, else the mean of the last `windowSize`. */
  lemma AverageAfterFeed(windowSize: nat, prices: seq<real>)
    requires windowSize > 0
    ensures Average(Feed(windowSize, prices), windowSize) ==
      if |prices| < windowSize then None else Some(Mean(prices[|prices| - windowSize..]))
  {
    FeedKeepsLast(windowSize, prices);
  }

  /** With capacity 0 the query never answers once a price has been added. */
  lemma TraceZeroCapacity(prices: seq<real>, i: nat)
    requires i < |prices|
    ensures Trace(0, prices)[i] == None
  {
    var p := prices[..i + 1];
    TracePrefix(0, prices, i + 1);
    FeedZeroCapacity(p);
    assert Feed(0, p) == p && |p| == i + 1;
    assert Trace(0, p) == Trace(0, p[..i]) + [Average(p, 0)];
  }

  /** The sum of three prices, unfolded. */
  lemma SumOfThree(a: real, b: real, c: real)
    ensures Sum([a, b, c]) == a + b + c
  {
    assert [a, b, c][..2] == [a, b];
    assert [a, b][..1] == [a];
    assert [a][..0] == [];
    assert Sum([a]) == a;
    assert Sum([a, b]) == a + b;
  }

  /** Feeding 1, 2, 3, 4, 5 into a window of capacity 3 answers None, None, 2, 3, 4. */
  lemma FeedOneToFive()
    ensures Trace(3, [1.0, 2.0, 3.0, 4.0, 5.0]) == [None, None, Some(2.0), Some(3.0), Some(4.0)]
  {
    var ps := [1.0, 2.0, 3.0, 4.0, 5.0];
    var t := Trace(3, ps);
    TraceAt(3, ps, 0);
    TraceAt(3, ps, 1);
    TraceAt(3, ps, 2);
    TraceAt(3, ps, 3);
    TraceAt(3, ps, 4);
    assert ps[0..3] == [1.0, 2.0, 3.0];
    assert ps[1..4] == [2.0, 3.0, 4.0];
    assert ps[2..5] == [3.0, 4.0, 5.0];
    SumOfThree(1.0, 2.0, 3.0);
    SumOfThree(2.0, 3.0, 4.0);
    SumOfThree(3.0, 4.0, 5.0);
    assert t == [None, None, Some(2.0), Some(3.0), Some(4.0)];
  }

  /** Every price lies in [lo, hi], so the sum lies in [n * lo, n * hi]. */
  lemma {:induction false} SumBounds(s: seq<real>, lo: real, hi: real)
    requires forall i :: 0 <= i < |s| ==> lo <= s[i] <= hi
    ensures |s| as real * lo <= Sum(s) <= |s| as real * hi
  {
    if s != [] {
      var init, last := s[..|s| - 1], s[|s| - 1];
      var n := |init| as real;
      assert forall i :: 0 <= i < |init| ==> init[i] == s[i];
      SumBounds(init, lo, hi);
      assert Sum(s) == Sum(init) + last && lo <= last <= hi;
      assert |s| as real == n + 1.0;
      ScaleStep(n, lo);
      ScaleStep(n, hi);
    }
  }

  lemma ScaleStep(n: real, x: real)
    ensures (n + 1.0) * x == n * x + x
  {
  }

  lemma DivideBounds(total: real, n: real, lo: real, hi: real)
    requires n > 0.0 && n * lo <= total <= n * hi
    ensures lo <= total / n <= hi
  {
    assert total / n * n == total;
  }

  /** A full window's average lies between the least and the greatest price in it. */
  lemma AverageWithinRange(window: seq<real>, windowSize: nat, lo: real, hi: real)
    requires windowSize > 0 && |window| == windowSize
    requires forall i :: 0 <= i < |window| ==> lo <= window[i] <= hi
    ensures lo <= Average(window, windowSize).value <= hi
  {
    SumBounds(window, lo, hi);
    DivideBounds(Sum(window), windowSize as real, lo, hi);
  }

  /**
   `SmaCalculator`: the window is a sequence field that `AddPrice` reassigns, as
   the source's `VecDeque` is mutated in place by `pop_front` and `push_back`.
   The ghost field `history` records every price added so far; `Valid` ties the
   window to it.
   */
  class SmaCalculator {
    var prices: seq<real>
    const windowSize: nat
    ghost var history: seq<real>

    ghost predicate Valid()
      reads this
    {
      prices == Feed(windowSize, history)
    }

    /** `new(window_size)`: an empty window of the given capacity. Any capacity,
        0 included, is accepted. */
    constructor (windowSize: nat)
      ensures Valid()
      ensures this.windowSize == windowSize && prices == [] && history == []
    {
      this.windowSize := windowSize;
      prices := [];
      history := [];
    }

    /** `add_price`: evicts the front when the window is full, then appends. For
        a positive capacity the window is then the last `windowSize` prices added. */
    method AddPrice(price: real)
      requires Valid()
      modifies this
      ensures Valid()
      ensures history == old(history) + [price]
      ensures prices == Pushed(old(prices), windowSize, price)
      ensures windowSize > 0 ==> prices == LastN(history, windowSize) && |prices| <= windowSize
    {
      if |prices| == windowSize {
        if prices != [] {
          prices := prices[1..];
        }
      }
      prices := prices + [price];
      FeedStep(windowSize, history, price);
      history := history + [price];
    }

    /** `get_simple_moving_average` (reads the window, changes nothing): for a
        positive capacity it answers exactly when at least `windowSize` prices
        have been added, and then with the mean of the last `windowSize` of them;
        with capacity 0 and a non-empty window it never answers. */
    function SimpleMovingAverage(): (r: Option<real>)
      reads this
      requires Valid() && (windowSize > 0 || prices != [])
      ensures windowSize > 0 ==> (r.Some? <==> |history| >= windowSize)
      ensures windowSize > 0 && r.Some? ==> r.value == Mean(history[|history| - windowSize..])
      ensures windowSize == 0 ==> r == None
    {
      FeedOfHistory(windowSize, history);
      Average(prices, windowSize)
    }
  }
}
