/**
 * Goodie distribution of problem2/index.js: sort the caller's goodies in place
 * by price (stably), then slide a window of `k` goodies over the sorted array
 * and keep the first window whose highest and lowest price differ the least.
 */
module GoodiesDistribution {

  /** A goodie: its name and its price. */
  datatype Goodie = Goodie(name: string, price: int)

  /** The smallest difference seen so far: JavaScript's `Infinity` before any window, then a finite value. */
  datatype MinDiff = Infinity | Finite(value: int)

  /** What findGoodiesDistribution returns: the chosen goodies and their price difference. */
  datatype Distribution = Distribution(chosenGoodies: seq<Goodie>, minDiff: MinDiff)

  /** Ascending by price. */
  ghost predicate SortedByPrice(s: seq<Goodie>)
  {
    forall i, j :: 0 <= i < j < |s| ==> s[i].price <= s[j].price
  }

  /** The goodies of `s` that cost `p`, in their order in `s`. */
  ghost function WithPrice(s: seq<Goodie>, p: int): seq<Goodie>
  {
    if s == [] then []
    else WithPrice(s[..|s| - 1], p) + (if s[|s| - 1].price == p then [s[|s| - 1]] else [])
  }

  /**
   * Inserts `x` into `s` behind every goodie that is not dearer than `x`:
   * scanning from the back, it passes only goodies strictly dearer than `x`,
   * which is what keeps the sort stable.
   */
  function Insert(x: Goodie, s: seq<Goodie>): (r: seq<Goodie>)
    ensures |r| == |s| + 1
  {
    if s == [] then [x]
    else if s[|s| - 1].price > x.price then Insert(x, s[..|s| - 1]) + [s[|s| - 1]]
    else s + [x]
  }

  /** Insertion adds `x` and loses nothing. */
  lemma {:induction false} InsertAddsOne(x: Goodie, s: seq<Goodie>)
    ensures multiset(Insert(x, s)) == multiset(s) + multiset{x}
  {
    if s != [] && s[|s| - 1].price > x.price {
      var init := s[..|s| - 1];
      InsertAddsOne(x, init);
      assert s == init + [s[|s| - 1]];
    }
  }

  /** Insertion keeps every price at most `bound` when `x` and all of `s` are. */
  lemma {:induction false} InsertStaysBelow(x: Goodie, s: seq<Goodie>, bound: int)
    requires x.price <= bound
    requires forall i :: 0 <= i < |s| ==> s[i].price <= bound
    ensures forall i :: 0 <= i < |Insert(x, s)| ==> Insert(x, s)[i].price <= bound
  {
    if s != [] && s[|s| - 1].price > x.price {
      InsertStaysBelow(x, s[..|s| - 1], bound);
    }
  }

  lemma SortedSnoc(s: seq<Goodie>, last: Goodie)
    requires SortedByPrice(s)
    requires forall i :: 0 <= i < |s| ==> s[i].price <= last.price
    ensures SortedByPrice(s + [last])
  {
  }

  /** Inserting into a sorted sequence keeps it sorted. */
  lemma {:induction false} InsertKeepsSorted(x: Goodie, s: seq<Goodie>)
    requires SortedByPrice(s)
    ensures SortedByPrice(Insert(x, s))
  {
    if s == [] {
    } else if s[|s| - 1].price > x.price {
      var init, last := s[..|s| - 1], s[|s| - 1];
      InsertKeepsSorted(x, init);
      InsertStaysBelow(x, init, last.price);
      SortedSnoc(Insert(x, init), last);
    } else {
      SortedSnoc(s, x);
    }
  }

  /** The stable sort by price: insert each goodie, left to right, into the sorted prefix before it. */
  function SortByPrice(s: seq<Goodie>): (r: seq<Goodie>)
    ensures |r| == |s|
  {
    if s == [] then [] else Insert(s[|s| - 1], SortByPrice(s[..|s| - 1]))
  }

  /** The sort's result is a permutation of its input. */
  lemma {:induction false} SortByPriceIsPermutation(s: seq<Goodie>)
    ensures multiset(SortByPrice(s)) == multiset(s)
  {
    if s != [] {
      var init := s[..|s| - 1];
      SortByPriceIsPermutation(init);
      InsertAddsOne(s[|s| - 1], SortByPrice(init));
      assert s == init + [s[|s| - 1]];
    }
  }

  /** The sort's result is ordered by price. */
  lemma {:induction false} SortByPriceIsSorted(s: seq<Goodie>)
    ensures SortedByPrice(SortByPrice(s))
  {
    if s != [] {
      SortByPriceIsSorted(s[..|s| - 1]);
      InsertKeepsSorted(s[|s| - 1], SortByPrice(s[..|s| - 1]));
    }
  }

  lemma {:induction false} WithPriceAppend(a: seq<Goodie>, b: seq<Goodie>, p: int)
    ensures WithPrice(a + b, p) == WithPrice(a, p) + WithPrice(b, p)
    decreases |b|
  {
    if b == [] {
      assert a + b == a;
    } else {
      var b' := b[..|b| - 1];
      assert (a + b)[..|a + b| - 1] == a + b';
      WithPriceAppend(a, b', p);
    }
  }

  /** Passing a dearer goodie `last` keeps `x` behind the goodies of its own price. */
  lemma PassDearerKeepsOrder(x: Goodie, init: seq<Goodie>, last: Goodie, p: int)
    requires last.price > x.price
    requires WithPrice(Insert(x, init), p) == WithPrice(init, p) + WithPrice([x], p)
    ensures WithPrice(Insert(x, init + [last]), p) == WithPrice(init + [last], p) + WithPrice([x], p)
  {
    var r, wx, wl := Insert(x, init), WithPrice([x], p), WithPrice([last], p);
    // `x` and `last` differ in price, so at most one of them has price `p`
    assert wx + wl == wl + wx by {
      WithPriceSingle(x, p);
      WithPriceSingle(last, p);
    }
    calc {
      WithPrice(Insert(x, init + [last]), p);
      { assert (init + [last])[..|init|] == init; }
      WithPrice(r + [last], p);
      { WithPriceAppend(r, [last], p); }
      WithPrice(r, p) + wl;
      WithPrice(init, p) + wx + wl;
      WithPrice(init, p) + wl + wx;
      { WithPriceAppend(init, [last], p); }
      WithPrice(init + [last], p) + wx;
    }
  }

  lemma WithPriceSingle(x: Goodie, p: int)
    ensures WithPrice([x], p) == if x.price == p then [x] else []
  {
    assert [x][..0] == [];
  }

  /** Insertion puts `x` after every goodie of its own price. */
  lemma {:induction false} InsertKeepsOrderOfEqualPrices(x: Goodie, s: seq<Goodie>, p: int)
    ensures WithPrice(Insert(x, s), p) == WithPrice(s, p) + WithPrice([x], p)
  {
    if s == [] {
      assert Insert(x, s) == [x];
    } else if s[|s| - 1].price > x.price {
      var init, last := s[..|s| - 1], s[|s| - 1];
      InsertKeepsOrderOfEqualPrices(x, init, p);
      PassDearerKeepsOrder(x, init, last, p);
      assert init + [last] == s;
    } else {
      WithPriceAppend(s, [x], p);
    }
  }

  /** The sort is stable: the goodies of any one price keep their relative order. */
  lemma {:induction false} SortByPriceIsStable(s: seq<Goodie>, p: int)
    ensures WithPrice(SortByPrice(s), p) == WithPrice(s, p)
  {
    if s != [] {
      var init, last := s[..|s| - 1], s[|s| - 1];
      SortByPriceIsStable(init, p);
      InsertKeepsOrderOfEqualPrices(last, SortByPrice(init), p);
      WithPriceAppend(init, [last], p);
      assert init + [last] == s;
    }
  }

  /**
   * Array.prototype.sort with comparator `(a, b) => a.price - b.price`, which
   * is stable: an insertion sort on the caller's array.
   */
  method SortGoodiesByPrice(a: array<Goodie>)
    modifies a
    ensures a[..] == SortByPrice(old(a[..]))
    ensures SortedByPrice(a[..])
    ensures multiset(a[..]) == multiset(old(a[..]))
    ensures forall p :: WithPrice(a[..], p) == WithPrice(old(a[..]), p)
  {
    ghost var input := a[..];
    var i := 0;
    while i < a.Length
      invariant 0 <= i <= a.Length
      invariant a[..] == SortByPrice(input[..i]) + input[i..]
    {
      SortByPriceStep(input, i);
      InsertIntoSortedPrefix(a, i);
      i := i + 1;
    }
    assert input[..a.Length] == input && input[a.Length..] == [];
    assert a[..] == SortByPrice(input);
    SortByPriceIsSorted(input);
    SortByPriceIsPermutation(input);
    forall p ensures WithPrice(a[..], p) == WithPrice(input, p) {
      SortByPriceIsStable(input, p);
    }
  }

  /**
   * One pass of the insertion sort: shifts the goodies of `a[..i]` that are
   * strictly dearer than `a[i]` one place right and drops `a[i]` into the gap.
   */
  method InsertIntoSortedPrefix(a: array<Goodie>, i: int)
    requires 0 <= i < a.Length
    modifies a
    ensures a[..] == Insert(old(a[i]), old(a[..i])) + old(a[i + 1..])
  {
    var key := a[i];
    ghost var sorted := a[..i];
    ghost var rest := a[i + 1..];
    assert a[..] == sorted + [key] + rest;
    assert sorted[..i] == sorted && sorted[i..] == [];
    var j := i;
    while j > 0 && a[j - 1].price > key.price
      invariant 0 <= j <= i
      invariant a[..] == sorted[..j] + [a[j]] + sorted[j..] + rest
      invariant Insert(key, sorted) == Insert(key, sorted[..j]) + sorted[j..]
    {
      ghost var before := a[..];
      ShiftRight(sorted, j, a[j], rest);
      InsertPassesDearer(key, sorted, j);
      a[j] := a[j - 1];
      assert a[..] == before[j := sorted[j - 1]];
      assert Insert(key, sorted) == Insert(key, sorted[..j - 1]) + sorted[j - 1..];
      j := j - 1;
    }
    ghost var before := a[..];
    InsertStopsHere(key, sorted, j);
    FillHole(sorted, j, a[j], key, rest);
    a[j] := key;
    assert a[..] == before[j := key];
  }

  /** Moving the goodie left of the hole into the hole moves the hole one place left. */
  lemma ShiftRight(sorted: seq<Goodie>, j: int, h: Goodie, rest: seq<Goodie>)
    requires 0 < j <= |sorted|
    ensures (sorted[..j] + [h] + sorted[j..] + rest)[j - 1] == sorted[j - 1]
    ensures (sorted[..j] + [h] + sorted[j..] + rest)[j := sorted[j - 1]]
         == sorted[..j - 1] + [sorted[j - 1]] + sorted[j - 1..] + rest
  {
    assert sorted[j - 1..] == [sorted[j - 1]] + sorted[j..];
    assert sorted[..j] == sorted[..j - 1] + [sorted[j - 1]];
  }

  /** Writing the key into the hole. */
  lemma FillHole(sorted: seq<Goodie>, j: int, h: Goodie, key: Goodie, rest: seq<Goodie>)
    requires 0 <= j <= |sorted|
    ensures (sorted[..j] + [h] + sorted[j..] + rest)[j := key] == sorted[..j] + [key] + sorted[j..] + rest
  {
  }

  /** The inner loop passes a goodie dearer than the key, as Insert does. */
  lemma InsertPassesDearer(key: Goodie, sorted: seq<Goodie>, j: int)
    requires 0 < j <= |sorted| && sorted[j - 1].price > key.price
    ensures Insert(key, sorted[..j]) + sorted[j..] == Insert(key, sorted[..j - 1]) + sorted[j - 1..]
  {
    assert sorted[..j][..j - 1] == sorted[..j - 1];
    assert sorted[j - 1..] == [sorted[j - 1]] + sorted[j..];
  }

  /** The inner loop stops at the front or behind a goodie not dearer than the key, as Insert does. */
  lemma InsertStopsHere(key: Goodie, sorted: seq<Goodie>, j: int)
    requires 0 <= j <= |sorted|
    requires j == 0 || sorted[j - 1].price <= key.price
    ensures Insert(key, sorted[..j]) == sorted[..j] + [key]
  {
  }

  /** One more goodie of the input joins the sorted prefix. */
  lemma SortByPriceStep(input: seq<Goodie>, i: int)
    requires 0 <= i < |input|
    ensures SortByPrice(input[..i + 1]) == Insert(input[i], SortByPrice(input[..i]))
  {
    assert input[..i + 1][..i] == input[..i];
  }

  /** The difference between the last and the first price of the window of `k` goodies starting at `i`. */
  function Spread(s: seq<Goodie>, k: int, i: int): int
    requires 1 <= k && 0 <= i && i + k <= |s|
  {
    s[i + k - 1].price - s[i].price
  }

  /** Among the windows starting at 0 .. m - 1, the first one with the smallest spread. */
  function FirstBestWindow(s: seq<Goodie>, k: int, m: int): (b: int)
    requires 1 <= k && 1 <= m && m - 1 + k <= |s|
    ensures 0 <= b < m
    ensures forall j :: 0 <= j < m ==> Spread(s, k, b) <= Spread(s, k, j)
    ensures forall j :: 0 <= j < b ==> Spread(s, k, b) < Spread(s, k, j)
  {
    if m == 1 then 0
    else
      var b := FirstBestWindow(s, k, m - 1);
      if Spread(s, k, m - 1) < Spread(s, k, b) then m - 1 else b
  }

  /** The first window, among all of them, with the smallest spread. */
  function BestStart(s: seq<Goodie>, k: int): (b: int)
    requires 1 <= k <= |s|
    ensures 0 <= b <= |s| - k
  {
    FirstBestWindow(s, k, |s| - k + 1)
  }

  /**
   * The distribution the window scan arrives at over `s`: no goodies and
   * `Infinity` when there is no window of `k` goodies, otherwise the first
   * window with the smallest spread and that spread.
   */
  function BestDistribution(s: seq<Goodie>, k: int): Distribution
    requires k >= 1
  {
    if k > |s| then Distribution([], Infinity)
    else
      var b := BestStart(s, k);
      Distribution(s[b..b + k], Finite(Spread(s, k, b)))
  }

  /**
   * findGoodiesDistribution: sort `goodies` in place, then scan the windows
   * of `k` consecutive goodies of the sorted array.
   */
  method FindGoodiesDistribution(k: int, goodies: array<Goodie>) returns (d: Distribution)
    requires k >= 1
    modifies goodies
    ensures goodies[..] == SortByPrice(old(goodies[..]))
    ensures d == BestDistribution(goodies[..], k)
  {
    SortGoodiesByPrice(goodies);
    d := ScanWindows(k, goodies[..]);
  }

  /**
   * The state of the window scan after the windows starting at 0 .. i - 1:
   * nothing chosen before the first window, afterwards the first window with
   * the smallest spread and that spread.
   */
  ghost predicate Scanned(s: seq<Goodie>, k: int, i: int, chosen: seq<Goodie>, minDiff: MinDiff, best: int)
    requires k >= 1
  {
    if i == 0 then chosen == [] && minDiff == Infinity
    else
      && 1 <= i <= |s| - k + 1
      && best == FirstBestWindow(s, k, i)
      && minDiff == Finite(Spread(s, k, best))
      && chosen == s[best..best + k]
  }

  /**
   * The loop of findGoodiesDistribution over the sorted goodies: every window
   * of `k` consecutive goodies, keeping the first one whose spread is
   * strictly below the smallest seen so far.
   */
  method ScanWindows(k: int, goodies: seq<Goodie>) returns (d: Distribution)
    requires k >= 1
    ensures d == BestDistribution(goodies, k)
  {
    var minDiff := Infinity;
    var chosenGoodies := [];
    ghost var best := 0;
    var i := 0;
    while i <= |goodies| - k
      invariant 0 <= i
      invariant Scanned(goodies, k, i, chosenGoodies, minDiff, best)
    {
      var diff := goodies[i + k - 1].price - goodies[i].price;
      ScanStep(goodies, k, i, chosenGoodies, minDiff, best);
      // `diff < minDiff`, where every number is below `Infinity`
      if minDiff.Infinity? || diff < minDiff.value {
        minDiff := Finite(diff);
        chosenGoodies := goodies[i..i + k];
        best := i;
      }
      i := i + 1;
    }
    d := Distribution(chosenGoodies, minDiff);
  }

  /** One more window: it becomes the best one exactly when its spread is strictly smaller. */
  lemma ScanStep(s: seq<Goodie>, k: int, i: int, chosen: seq<Goodie>, minDiff: MinDiff, best: int)
    requires k >= 1 && 0 <= i <= |s| - k
    requires Scanned(s, k, i, chosen, minDiff, best)
    ensures var diff := s[i + k - 1].price - s[i].price;
      if minDiff.Infinity? || diff < minDiff.value then Scanned(s, k, i + 1, s[i..i + k], Finite(diff), i)
      else Scanned(s, k, i + 1, chosen, minDiff, best)
  {
  }

  /**
   * What the chosen distribution is: with fewer than `k` goodies nothing and
   * `Infinity`; otherwise `k` consecutive goodies whose difference is their
   * last price minus their first, no larger than any other window's, strictly
   * smaller than that of every window before it, and never negative once the
   * goodies are sorted.
   */
  lemma BestDistributionIsBestWindow(s: seq<Goodie>, k: int)
    requires k >= 1
    ensures var d := BestDistribution(s, k);
      && (k > |s| ==> d.chosenGoodies == [] && d.minDiff == Infinity)
      && (k <= |s| ==>
        && d.minDiff.Finite?
        && |d.chosenGoodies| == k
        && d.chosenGoodies == s[BestStart(s, k)..BestStart(s, k) + k]
        && d.minDiff.value == d.chosenGoodies[k - 1].price - d.chosenGoodies[0].price
        && (forall j :: 0 <= j <= |s| - k ==> d.minDiff.value <= Spread(s, k, j))
        && (forall j :: 0 <= j < BestStart(s, k) ==> d.minDiff.value < Spread(s, k, j))
        && (SortedByPrice(s) ==> d.minDiff.value >= 0))
  {
  }

  /** The unit test: prices 100, 500, 300 and two employees give Goodie1 and Goodie3, 200 apart. */
  method ExampleTwoOfThree() returns (d: Distribution)
    ensures d == Distribution([Goodie("Goodie1", 100), Goodie("Goodie3", 300)], Finite(200))
  {
    var g1, g2, g3 := Goodie("Goodie1", 100), Goodie("Goodie2", 500), Goodie("Goodie3", 300);
    var goodies := new Goodie[3][g1, g2, g3];
    assert goodies[..] == [g1, g2, g3];
    assert [g1, g2, g3][..2] == [g1, g2] && [g1, g2][..1] == [g1] && [g1][..0] == [];
    assert SortByPrice([g1, g2]) == [g1, g2];
    assert Insert(g3, [g1, g2]) == Insert(g3, [g1]) + [g2] == [g1, g3, g2];
    d := FindGoodiesDistribution(2, goodies);
    assert goodies[..] == [g1, g3, g2];
    assert FirstBestWindow([g1, g3, g2], 2, 2) == 0;
  }

  /** Equal prices: the stable sort keeps A before B before C, and the first window wins the tie. */
  method ExampleEqualPrices() returns (d: Distribution)
    ensures d == Distribution([Goodie("A", 100), Goodie("B", 100)], Finite(0))
  {
    var a, b, c := Goodie("A", 100), Goodie("B", 100), Goodie("C", 100);
    var goodies := new Goodie[3][a, b, c];
    assert goodies[..] == [a, b, c];
    assert [a, b, c][..2] == [a, b] && [a, b][..1] == [a] && [a][..0] == [];
    assert SortByPrice([a, b]) == [a, b];
    assert SortByPrice([a, b, c]) == [a, b, c];
    d := FindGoodiesDistribution(2, goodies);
    assert goodies[..] == [a, b, c];
    assert FirstBestWindow([a, b, c], 2, 2) == 0;
  }

  /** More employees than goodies: no error, an empty selection and `Infinity`. */
  method ExampleTooFewGoodies() returns (d: Distribution)
    ensures d == Distribution([], Infinity)
  {
    var goodies := new Goodie[2][Goodie("A", 100), Goodie("B", 200)];
    d := FindGoodiesDistribution(3, goodies);
  }
}
