/**
 The series-selection step of `main` in src/main.rs: the daily time series,
 a map from "YYYY-MM-DD" date keys to the day's close, is collected into a
 vector, sorted by date key with the most recent first, cut to the first
 `seriesSize` entries, and the closes of those entries are gathered in that
 order.

 The close is already a number here: reading the provider's decimal text is
 not part of this model.
 */
module Selection {
  import opened DateOrder

  /** One `(date, daily prices)` pair of the collected vector, reduced to the close. */
  datatype Entry = Entry(date: string, close: real)

  /** Every date of `entries`. */
  function DatesOf(entries: seq<Entry>): set<string>
  {
    set e | e in entries :: e.date
  }

  ghost predicate DistinctDates(entries: seq<Entry>)
  {
    forall i, j :: 0 <= i < j < |entries| ==> entries[i].date != entries[j].date
  }

  /** Most recent first: each entry's date sorts strictly after every later one's. */
  ghost predicate DescendingByDate(entries: seq<Entry>)
  {
    forall i, j :: 0 <= i < j < |entries| ==> Below(entries[j].date, entries[i].date)
  }

  /** `response.time_series.iter().collect()`: the map's entries, each once, in an
      order the map does not specify (here, whichever key is chosen next). */
  method Collect(series: map<string, real>) returns (entries: seq<Entry>)
    ensures DistinctDates(entries) && |entries| == |series|
    ensures DatesOf(entries) == series.Keys
    ensures forall e :: e in entries ==> e.date in series && series[e.date] == e.close
  {
    entries := [];
    var rest := series.Keys;
    while rest != {}
      invariant rest <= series.Keys
      invariant DistinctDates(entries)
      invariant |entries| + |rest| == |series|
      invariant DatesOf(entries) + rest == series.Keys
      invariant forall e :: e in entries ==> e.date in series && e.date !in rest && series[e.date] == e.close
      decreases rest
    {
      var d :| d in rest;
      entries := entries + [Entry(d, series[d])];
      rest := rest - {d};
    }
  }

  /** Places `e` before the first entry whose date sorts below its own. */
  function InsertByDate(e: Entry, sorted: seq<Entry>): (r: seq<Entry>)
    ensures |r| == |sorted| + 1
    ensures multiset(r) == multiset(sorted) + multiset{e}
  {
    if sorted == [] || Below(sorted[0].date, e.date) then [e] + sorted
    else
      assert sorted == [sorted[0]] + sorted[1..];
      [sorted[0]] + InsertByDate(e, sorted[1..])
  }

  /** `dates.sort_by(|a, b| b.0.cmp(a.0))`: the entries ordered by date key,
      greatest first. With distinct keys the sorted order is unique
      (`SortedIsUnique`), so any correct sort gives this result. */
  function SortByDateDesc(entries: seq<Entry>): (r: seq<Entry>)
    ensures |r| == |entries|
    ensures multiset(r) == multiset(entries)
  {
    if entries == [] then []
    else
      assert entries == [entries[0]] + entries[1..];
      InsertByDate(entries[0], SortByDateDesc(entries[1..]))
  }

  lemma InsertKeepsDescending(e: Entry, sorted: seq<Entry>)
    requires DescendingByDate(sorted)
    requires forall x :: x in sorted ==> x.date != e.date
    ensures DescendingByDate(InsertByDate(e, sorted))
    decreases |sorted|
  {
    if sorted == [] || Below(sorted[0].date, e.date) {
      var r := [e] + sorted;
      forall i, j | 0 <= i < j < |r| ensures Below(r[j].date, r[i].date) {
        if i == 0 && j > 1 {
          BelowTransitive(sorted[j - 1].date, sorted[0].date, e.date);
        }
      }
    } else {
      var head := sorted[0];
      BelowTotal(head.date, e.date);
      var rest := InsertByDate(e, sorted[1..]);
      InsertKeepsDescending(e, sorted[1..]);
      forall j | 0 <= j < |rest| ensures Below(rest[j].date, head.date) {
        assert rest[j] in multiset(rest);
        if rest[j] != e {
          assert rest[j] in sorted[1..];
        }
      }
    }
  }

  /** The sort yields the entries strictly most-recent-first when their dates
      are distinct, as the keys of a map are. */
  lemma {:induction false} SortIsDescending(entries: seq<Entry>)
    requires DistinctDates(entries)
    ensures DescendingByDate(SortByDateDesc(entries))
  {
    if entries != [] {
      var tail := entries[1..];
      SortIsDescending(tail);
      var sortedTail := SortByDateDesc(tail);
      forall x | x in sortedTail ensures x.date != entries[0].date {
        assert x in multiset(sortedTail);
        assert x in tail;
      }
      InsertKeepsDescending(entries[0], sortedTail);
    }
  }

  /** Two strictly-most-recent-first orderings of the same entries coincide. */
  lemma {:induction false} SortedIsUnique(a: seq<Entry>, b: seq<Entry>)
    requires DescendingByDate(a) && DescendingByDate(b)
    requires multiset(a) == multiset(b)
    ensures a == b
    decreases |a|
  {
    if a != [] {
      SameHead(a, b);
      assert a == [a[0]] + a[1..] && b == [b[0]] + b[1..];
      TailMultiset(a);
      TailMultiset(b);
      SortedIsUnique(a[1..], b[1..]);
    }
  }

  /** Both orderings start with the most recent entry. */
  lemma SameHead(a: seq<Entry>, b: seq<Entry>)
    requires DescendingByDate(a) && DescendingByDate(b)
    requires multiset(a) == multiset(b) && a != []
    ensures b != [] && a[0] == b[0]
  {
    assert a[0] in multiset(b);
    assert b[0] in multiset(a);
    if a[0] != b[0] {
      var i :| 0 <= i < |a| && a[i] == b[0];
      var j :| 0 <= j < |b| && b[j] == a[0];
      // a[0] sorts above b[0] = a[i], and b[0] sorts above a[0] = b[j]
      BelowAsymmetric(a[i].date, a[0].date);
    }
  }

  lemma TailMultiset(s: seq<Entry>)
    requires s != []
    ensures multiset(s[1..]) == multiset(s) - multiset{s[0]}
  {
    assert s == [s[0]] + s[1..];
  }

  /** `dates` are the `n` most recent dates of `series` (all of them when the
      series is shorter), most recent first. */
  ghost predicate IsRecentSelection(series: map<string, real>, n: nat, dates: seq<string>)
  {
    && |dates| == (if n <= |series| then n else |series|)
    && (forall i :: 0 <= i < |dates| ==> dates[i] in series)
    && (forall i, j :: 0 <= i < j < |dates| ==> Below(dates[j], dates[i]))
    && (forall d, i :: d in series && d !in dates && 0 <= i < |dates| ==> Below(d, dates[i]))
  }

  /** The closes of `dates`, in the same order. */
  function ClosesOf(series: map<string, real>, dates: seq<string>): (closes: seq<real>)
    requires forall d :: d in dates ==> d in series
    ensures |closes| == |dates|
    ensures forall i :: 0 <= i < |dates| ==> closes[i] == series[dates[i]]
  {
    if dates == [] then [] else [series[dates[0]]] + ClosesOf(series, dates[1..])
  }

  /** A series has only one selection of its `n` most recent dates. */
  lemma RecentSelectionIsUnique(series: map<string, real>, n: nat, a: seq<string>, b: seq<string>)
    requires IsRecentSelection(series, n, a) && IsRecentSelection(series, n, b)
    ensures a == b
  {
    if a != b {
      var k := FirstDifference(a, b);
      BelowTotal(a[k], b[k]);
      if Below(a[k], b[k]) {
        // b[k] is missing from a, so a's maximality puts it below a[k]
        NotEarlierInSelection(a, b, k);
        BelowAsymmetric(a[k], b[k]);
      } else {
        // symmetrically, a[k] is missing from b and so sorts below b[k]
        NotEarlierInSelection(b, a, k);
      }
    }
  }

  /** The first position at which two different sequences of equal length differ. */
  lemma {:induction false} FirstDifference(a: seq<string>, b: seq<string>) returns (k: nat)
    requires |a| == |b| && a != b
    ensures k < |a| && a[k] != b[k]
    ensures forall i :: 0 <= i < k ==> a[i] == b[i]
  {
    if a[0] != b[0] {
      k := 0;
    } else {
      assert a == [a[0]] + a[1..] && b == [b[0]] + b[1..];
      var k' := FirstDifference(a[1..], b[1..]);
      k := k' + 1;
    }
  }

  /** If `a` and `b` agree before position `k` and `a[k]` sorts below `b[k]`,
      then `b[k]` does not occur in `a`. */
  lemma NotEarlierInSelection(a: seq<string>, b: seq<string>, k: nat)
    requires k < |a| && k < |b|
    requires forall i, j :: 0 <= i < j < |a| ==> Below(a[j], a[i])
    requires forall i, j :: 0 <= i < j < |b| ==> Below(b[j], b[i])
    requires forall i :: 0 <= i < k ==> a[i] == b[i]
    requires Below(a[k], b[k])
    ensures b[k] !in a
  {
    if b[k] in a {
      var j :| 0 <= j < |a| && a[j] == b[k];
      // j < k and j == k each make some string sort below itself
      if j > k {
        BelowTransitive(a[j], a[k], b[k]);
      }
    }
  }

  /** Lines 46-52 of `main`: collect the series, sort it most recent first, and
      push the close of each of the first `seriesSize` entries, in that order.
      The dates behind the prices are the `seriesSize` most recent ones. */
  method SelectPrices(series: map<string, real>, seriesSize: nat) returns (dates: seq<string>, prices: seq<real>)
    ensures IsRecentSelection(series, seriesSize, dates)
    ensures prices == ClosesOf(series, dates)
  {
    var entries := Collect(series);
    var sorted := SortByDateDesc(entries);
    prices, dates := [], [];
    var i := 0;
    while i < |sorted| && i < seriesSize
      invariant i <= |sorted| && i <= seriesSize
      invariant |prices| == i && |dates| == i
      invariant forall k :: 0 <= k < i ==> dates[k] == sorted[k].date && prices[k] == sorted[k].close
    {
      prices := prices + [sorted[i].close];
      dates := dates + [sorted[i].date];
      i := i + 1;
    }
    SortIsDescending(entries);
    InSortedIffInEntries(entries);
    SortedPrefixIsRecent(series, sorted, seriesSize, dates, prices);
  }

  /** The dates of the first `n` entries of a most-recent-first ordering of a
      series are its `n` most recent dates, and the prices beside them are the
      series' closes. */
  lemma SortedPrefixIsRecent(series: map<string, real>, sorted: seq<Entry>, n: nat, dates: seq<string>, prices: seq<real>)
    requires DescendingByDate(sorted) && |sorted| == |series|
    requires forall d :: d in series ==> exists e :: e in sorted && e.date == d
    requires forall e :: e in sorted ==> e.date in series && series[e.date] == e.close
    requires |dates| == |prices| == (if n <= |sorted| then n else |sorted|)
    requires forall k :: 0 <= k < |dates| ==> dates[k] == sorted[k].date && prices[k] == sorted[k].close
    ensures IsRecentSelection(series, n, dates)
    ensures prices == ClosesOf(series, dates)
  {
    forall k | 0 <= k < |dates| ensures dates[k] in series && prices[k] == series[dates[k]] {
      assert sorted[k] in sorted;
    }
    forall d, k | d in series && d !in dates && 0 <= k < |dates| ensures Below(d, dates[k]) {
      var e :| e in sorted && e.date == d;
      var j :| 0 <= j < |sorted| && sorted[j] == e;
      assert j >= |dates|;  // otherwise d would be dates[j]
    }
    var closes := ClosesOf(series, dates);
    assert forall k :: 0 <= k < |prices| ==> prices[k] == closes[k];
  }

  /** The sorted vector holds the same entries as the collected one. */
  lemma InSortedIffInEntries(entries: seq<Entry>)
    ensures forall e :: e in SortByDateDesc(entries) <==> e in entries
    ensures forall d :: d in DatesOf(entries) ==> exists e :: e in SortByDateDesc(entries) && e.date == d
  {
    var sorted := SortByDateDesc(entries);
    forall e ensures e in sorted <==> e in entries {
      assert e in sorted <==> e in multiset(sorted);
      assert e in entries <==> e in multiset(entries);
    }
  }
}
