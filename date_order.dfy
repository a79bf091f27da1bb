/**
 The order in which src/main.rs sorts the time series: `String::cmp` on the
 "YYYY-MM-DD" keys. Rust compares strings byte by byte in UTF-8, which orders
 them as their characters' code points do; a proper prefix comes first.
 For keys in this fixed-width format the order is chronological.
 */
module DateOrder {

  /** `a` sorts strictly before `b` (lexicographic order on characters). */
  predicate Below(a: string, b: string)
    ensures Below(a, b) ==> a != b && (|a| <= |b| || a[..|b|] != b)
  {
    if a == [] then b != []
    else b != [] && (a[0] < b[0] || (a[0] == b[0] && Below(a[1..], b[1..])))
  }

  lemma {:induction false} BelowIrreflexive(a: string)
    ensures !Below(a, a)
  {
    if a != [] {
      BelowIrreflexive(a[1..]);
    }
  }

  lemma {:induction false} BelowTransitive(a: string, b: string, c: string)
    requires Below(a, b) && Below(b, c)
    ensures Below(a, c)
  {
    if a != [] && a[0] == b[0] && b[0] == c[0] {
      BelowTransitive(a[1..], b[1..], c[1..]);
    }
  }

  /** Any two different strings are ordered one way or the other. */
  lemma {:induction false} BelowTotal(a: string, b: string)
    requires a != b
    ensures Below(a, b) || Below(b, a)
  {
    if a != [] && b != [] && a[0] == b[0] {
      assert a == [a[0]] + a[1..] && b == [b[0]] + b[1..];
      BelowTotal(a[1..], b[1..]);
    }
  }

  lemma BelowAsymmetric(a: string, b: string)
    requires Below(a, b)
    ensures !Below(b, a)
  {
    if Below(b, a) {
      BelowTransitive(a, b, a);
      BelowIrreflexive(a);
    }
  }

  /** The two-digit decimal text of `n`, zero-padded. */
  function Digits2(n: nat): string
    requires n < 100
  {
    [(48 + n / 10) as char, (48 + n % 10) as char]
  }

  /** The "YYYY-MM-DD" text of a date, years 0 to 9999. */
  function DateKey(year: nat, month: nat, day: nat): (key: string)
    requires year < 10000 && month < 100 && day < 100
    ensures |key| == 10
  {
    Digits2(year / 100) + (Digits2(year % 100) + ("-" + (Digits2(month) + ("-" + Digits2(day)))))
  }

  /** Equal-length heads decide the order unless they are equal. */
  lemma {:induction false} BelowConcat(x: string, u: string, y: string, v: string)
    requires |x| == |y|
    ensures Below(x + u, y + v) <==> Below(x, y) || (x == y && Below(u, v))
  {
    if x != [] {
      assert (x + u)[1..] == x[1..] + u;
      assert (y + v)[1..] == y[1..] + v;
      BelowConcat(x[1..], u, y[1..], v);
      if x[0] == y[0] && x[1..] == y[1..] {
        assert x == [x[0]] + x[1..] && y == [y[0]] + y[1..];
      }
    } else {
      assert x + u == u && y + v == v;
    }
  }

  lemma Digits2Order(m: nat, n: nat)
    requires m < 100 && n < 100
    ensures Below(Digits2(m), Digits2(n)) <==> m < n
    ensures Digits2(m) == Digits2(n) <==> m == n
  {
    var a, b := Digits2(m), Digits2(n);
    assert a[1..] == [(48 + m % 10) as char] && b[1..] == [(48 + n % 10) as char];
    assert a[1..][1..] == [] && b[1..][1..] == [];
    assert !Below(a[1..][1..], b[1..][1..]);
    assert Below(a[1..], b[1..]) <==> m % 10 < n % 10;
    assert a[0] < b[0] <==> m / 10 < n / 10;
    assert Below(a, b) <==> m / 10 < n / 10 || (m / 10 == n / 10 && m % 10 < n % 10);
    assert m == m / 10 * 10 + m % 10 && n == n / 10 * 10 + n % 10;
  }

  /** The sort key is chronological: one date's key sorts before another's
      exactly when it is the earlier date. */
  lemma DateKeyChronological(y1: nat, m1: nat, d1: nat, y2: nat, m2: nat, d2: nat)
    requires y1 < 10000 && m1 < 100 && d1 < 100
    requires y2 < 10000 && m2 < 100 && d2 < 100
    ensures Below(DateKey(y1, m1, d1), DateKey(y2, m2, d2)) <==>
      y1 < y2 || (y1 == y2 && (m1 < m2 || (m1 == m2 && d1 < d2)))
  {
    var dash := "-";
    BelowIrreflexive(dash);
    // month and day
    Digits2Order(m1, m2);
    Digits2Order(d1, d2);
    var e1, e2 := Digits2(d1), Digits2(d2);
    BelowConcat(dash, e1, dash, e2);
    var c1, c2 := Digits2(m1), Digits2(m2);
    BelowConcat(c1, dash + e1, c2, dash + e2);
    var md1, md2 := dash + (c1 + (dash + e1)), dash + (c2 + (dash + e2));
    BelowConcat(dash, c1 + (dash + e1), dash, c2 + (dash + e2));
    assert Below(md1, md2) <==> m1 < m2 || (m1 == m2 && d1 < d2);
    // the year, in two pairs of digits
    YearOrder(y1, y2, md1, md2);
  }

  /** The four year digits decide the order unless the years are equal. */
  lemma YearOrder(y1: nat, y2: nat, u: string, v: string)
    requires y1 < 10000 && y2 < 10000
    ensures Below(Digits2(y1 / 100) + (Digits2(y1 % 100) + u), Digits2(y2 / 100) + (Digits2(y2 % 100) + v)) <==>
      y1 < y2 || (y1 == y2 && Below(u, v))
  {
    Digits2Order(y1 / 100, y2 / 100);
    Digits2Order(y1 % 100, y2 % 100);
    BelowConcat(Digits2(y1 / 100), Digits2(y1 % 100) + u, Digits2(y2 / 100), Digits2(y2 % 100) + v);
    BelowConcat(Digits2(y1 % 100), u, Digits2(y2 % 100), v);
    assert y1 == y1 / 100 * 100 + y1 % 100;
    assert y2 == y2 / 100 * 100 + y2 % 100;
  }
}
