/**
  `collections.Counter` as the analyzer uses it: a dictionary from label to
  count whose keys keep the order in which they were first incremented, and
  `most_common()`, which lists the entries by descending count with ties in
  key order (it is `sorted(items, key=count, reverse=True)`, a stable sort).
*/
module Tally {
  import opened Detection

  /** One `(label, count)` pair of `Counter.items()`. */
  type Item = (Label, nat)

  /**
    The counter as an insertion-ordered dictionary: its `(label, count)`
    entries in the order the labels were first incremented.
  */
  datatype Counter = Counter(items: seq<Item>)
  {
    /** Each label has one entry. */
    ghost predicate Valid()
    {
      forall i, j :: 0 <= i < j < |items| ==> items[i].0 != items[j].0
    }

    /** The position of `l`'s entry, or -1. */
    function Find(l: Label): (r: int)
      ensures -1 <= r < |items|
      ensures r >= 0 ==> items[r].0 == l
      ensures r < 0 ==> forall i :: 0 <= i < |items| ==> items[i].0 != l
    {
      FindIn(items, l)
    }

    /** `counter[l]`: a missing key reads as zero. */
    function Get(l: Label): nat
    {
      var i := Find(l);
      if i >= 0 then items[i].1 else 0
    }

    /** The keys, in insertion order. */
    function Keys(): (r: seq<Label>)
      ensures |r| == |items|
      ensures forall i :: 0 <= i < |items| ==> r[i] == items[i].0
    {
      seq(|items|, i requires 0 <= i < |items| => items[i].0)
    }

    /** The sum of all counts. */
    function Total(): nat
    {
      SumCounts(items)
    }

    /** `counter[l] += 1`; what it does to the entries is `IncrementSpec`. */
    function Increment(l: Label): (r: Counter)
      requires Valid()
      ensures r.Valid()
    {
      var i := Find(l);
      if i >= 0 then
        BumpFacts(this, i);
        Counter(items[i := (l, items[i].1 + 1)])
      else
        AppendFacts(this, l);
        Counter(items + [(l, 1)])
    }

    /**
      `counter.most_common()`: the entries, as a permutation, with counts that
      never increase, with the entries of any one count in insertion order,
      and with the same total.
    */
    function MostCommon(): (r: seq<Item>)
      ensures multiset(r) == multiset(items)
      ensures NonIncreasing(r)
      ensures forall c :: WithCount(r, c) == WithCount(items, c)
      ensures SumCounts(r) == Total()
    {
      var r := SortByCount(items);
      SortSortsAndPermutes(items);
      assert forall c :: WithCount(r, c) == WithCount(items, c) by {
        forall c { SortStable(items, c); }
      }
      r
    }
  }

  /**
    `counter[l] += 1`: the count of `l` goes up by one and no other count
    changes; a label seen for the first time gets the last entry. The total
    goes up by one.
  */
  lemma IncrementSpec(c: Counter, l: Label)
    requires c.Valid()
    ensures var r := c.Increment(l);
      && r.Get(l) == c.Get(l) + 1
      && (forall m :: m != l ==> r.Get(m) == c.Get(m))
      && r.Keys() == (if c.Find(l) >= 0 then c.Keys() else c.Keys() + [l])
      && r.Total() == c.Total() + 1
  {
    var i := c.Find(l);
    if i >= 0 {
      BumpFacts(c, i);
    } else {
      AppendFacts(c, l);
    }
  }

  function FindIn(items: seq<Item>, l: Label): (r: int)
    ensures -1 <= r < |items|
    ensures r >= 0 ==> items[r].0 == l
    ensures r < 0 ==> forall i :: 0 <= i < |items| ==> items[i].0 != l
  {
    if items == [] then -1
    else if items[|items| - 1].0 == l then |items| - 1
    else FindIn(items[..|items| - 1], l)
  }

  /** Adding one to the entry at `i`. */
  lemma BumpFacts(c: Counter, i: nat)
    requires c.Valid() && i < |c.items|
    ensures var l := c.items[i].0;
      var r := Counter(c.items[i := (l, c.items[i].1 + 1)]);
      && r.Valid()
      && r.Get(l) == c.Get(l) + 1
      && (forall m :: m != l ==> r.Get(m) == c.Get(m))
      && r.Keys() == c.Keys()
      && r.Total() == c.Total() + 1
  {
    var l := c.items[i].0;
    var r := Counter(c.items[i := (l, c.items[i].1 + 1)]);
    SumBumped(c.items, i);
    FindUnique(c.items, l, i);
    FindUnique(r.items, l, i);
    forall m | m != l ensures r.Get(m) == c.Get(m) {
      var k := c.Find(m);
      if k >= 0 { FindUnique(r.items, m, k); }
    }
  }

  /** Adding a first entry for a label that has none. */
  lemma AppendFacts(c: Counter, l: Label)
    requires c.Valid() && c.Find(l) < 0
    ensures var r := Counter(c.items + [(l, 1)]);
      && r.Valid()
      && r.Get(l) == c.Get(l) + 1
      && (forall m :: m != l ==> r.Get(m) == c.Get(m))
      && r.Keys() == c.Keys() + [l]
      && r.Total() == c.Total() + 1
  {
    var r := Counter(c.items + [(l, 1)]);
    SumCountsSnoc(c.items, (l, 1));
    FindUnique(r.items, l, |c.items|);
    forall m | m != l ensures r.Get(m) == c.Get(m) {
      var k := c.Find(m);
      if k >= 0 { FindUnique(r.items, m, k); }
    }
  }

  lemma FindUnique(items: seq<Item>, l: Label, i: nat)
    requires forall j, k :: 0 <= j < k < |items| ==> items[j].0 != items[k].0
    requires i < |items| && items[i].0 == l
    ensures FindIn(items, l) == i
  {
  }

  function SumCounts(items: seq<Item>): nat
  {
    if items == [] then 0 else SumCounts(items[..|items| - 1]) + items[|items| - 1].1
  }

  lemma SumCountsSnoc(items: seq<Item>, x: Item)
    ensures SumCounts(items + [x]) == SumCounts(items) + x.1
  {
    assert (items + [x])[..|items|] == items;
  }

  /** Adding one to one entry's count adds one to the sum. */
  lemma {:induction false} SumBumped(items: seq<Item>, i: nat)
    requires i < |items|
    ensures SumCounts(items[i := (items[i].0, items[i].1 + 1)]) == SumCounts(items) + 1
  {
    var bumped := items[i := (items[i].0, items[i].1 + 1)];
    var n := |items| - 1;
    assert bumped[..n] == if i == n then items[..n] else items[..n][i := (items[i].0, items[i].1 + 1)];
    if i < n {
      SumBumped(items[..n], i);
    }
  }

  /** Counts never increase along `s`. */
  ghost predicate NonIncreasing(s: seq<Item>)
  {
    forall i, j :: 0 <= i < j < |s| ==> s[i].1 >= s[j].1
  }

  /** The items of `s` whose count is `c`, in the order of `s`. */
  function WithCount(s: seq<Item>, c: nat): (r: seq<Item>)
  {
    if s == [] then []
    else WithCount(s[..|s| - 1], c) + (if s[|s| - 1].1 == c then [s[|s| - 1]] else [])
  }

  lemma WithCountSnoc(s: seq<Item>, y: Item, c: nat)
    ensures WithCount(s + [y], c) == WithCount(s, c) + (if y.1 == c then [y] else [])
  {
    assert (s + [y])[..|s|] == s;
  }

  /**
    Puts `x` into `s` after every item whose count is at least `x`'s,
    scanning from the end, so that among equal counts `x` comes last.
  */
  function InsertByCount(s: seq<Item>, x: Item): (r: seq<Item>)
    ensures |r| == |s| + 1
  {
    if s == [] || s[|s| - 1].1 >= x.1 then s + [x]
    else InsertByCount(s[..|s| - 1], x) + [s[|s| - 1]]
  }

  /** Inserting keeps every item and adds `x`, and adds `x`'s count to the sum. */
  lemma {:induction false} InsertPermutes(s: seq<Item>, x: Item)
    ensures multiset(InsertByCount(s, x)) == multiset(s) + multiset{x}
    ensures SumCounts(InsertByCount(s, x)) == SumCounts(s) + x.1
  {
    if s == [] || s[|s| - 1].1 >= x.1 {
      SumCountsSnoc(s, x);
    } else {
      var init, last := s[..|s| - 1], s[|s| - 1];
      assert s == init + [last];
      InsertPermutes(init, x);
      SumCountsSnoc(InsertByCount(init, x), last);
      SumCountsSnoc(init, last);
    }
  }

  /** Inserting into a non-increasing sequence gives a non-increasing sequence. */
  lemma {:induction false} InsertSorted(s: seq<Item>, x: Item)
    requires NonIncreasing(s)
    ensures NonIncreasing(InsertByCount(s, x))
  {
    if s != [] && s[|s| - 1].1 < x.1 {
      var init, last := s[..|s| - 1], s[|s| - 1];
      assert s == init + [last];
      var r0 := InsertByCount(init, x);
      InsertSorted(init, x);
      InsertPermutes(init, x);
      forall e: Item | e in multiset(r0) ensures e.1 >= last.1 {
        if e != x {
          assert e in multiset(init);
          var i :| 0 <= i < |init| && init[i] == e;
          assert s[i] == e;
        }
      }
      AppendSmallest(r0, last);
    }
  }

  /** Appending an item whose count is at most every count keeps the order non-increasing. */
  lemma AppendSmallest(r: seq<Item>, y: Item)
    requires NonIncreasing(r)
    requires forall e :: e in multiset(r) ==> e.1 >= y.1
    ensures NonIncreasing(r + [y])
  {
    forall i | 0 <= i < |r| ensures r[i].1 >= y.1 {
      assert r[i] in multiset(r);
    }
  }

  /** Inserting `x` appends it to the items of its own count and leaves the others alone. */
  lemma {:induction false} InsertStable(s: seq<Item>, x: Item, c: nat)
    requires NonIncreasing(s)
    ensures WithCount(InsertByCount(s, x), c) == WithCount(s, c) + (if x.1 == c then [x] else [])
  {
    if s == [] || s[|s| - 1].1 >= x.1 {
      WithCountSnoc(s, x, c);
    } else {
      var init, last := s[..|s| - 1], s[|s| - 1];
      assert s == init + [last];
      InsertStable(init, x, c);
      WithCountSnoc(InsertByCount(init, x), last, c);
      WithCountSnoc(init, last, c);
    }
  }

  /** `sorted(items, key=count, reverse=True)`: an insertion sort by descending count. */
  function SortByCount(items: seq<Item>): (r: seq<Item>)
    ensures |r| == |items|
  {
    if items == [] then []
    else InsertByCount(SortByCount(items[..|items| - 1]), items[|items| - 1])
  }

  /** The sort returns a non-increasing permutation of its input, with the same sum. */
  lemma {:induction false} SortSortsAndPermutes(items: seq<Item>)
    ensures NonIncreasing(SortByCount(items))
    ensures multiset(SortByCount(items)) == multiset(items)
    ensures SumCounts(SortByCount(items)) == SumCounts(items)
  {
    if items != [] {
      var init, last := items[..|items| - 1], items[|items| - 1];
      assert items == init + [last];
      SortSortsAndPermutes(init);
      InsertSorted(SortByCount(init), last);
      InsertPermutes(SortByCount(init), last);
      SumCountsSnoc(init, last);
    }
  }

  /** The sort is stable: the items of any one count keep their relative order. */
  lemma {:induction false} SortStable(items: seq<Item>, c: nat)
    ensures WithCount(SortByCount(items), c) == WithCount(items, c)
  {
    if items != [] {
      var init, last := items[..|items| - 1], items[|items| - 1];
      assert items == init + [last];
      SortStable(init, c);
      SortSortsAndPermutes(init);
      InsertStable(SortByCount(init), last, c);
      WithCountSnoc(init, last, c);
    }
  }

  /**
    Ties keep insertion order: with `ascii` counted once and then `utf-8`
    and `GB2312` twice each, `most_common()` lists `utf-8`, `GB2312`, `ascii`.
  */
  lemma MostCommonKeepsTies()
    ensures Counter([("ascii", 1), ("utf-8", 2), ("GB2312", 2)]).MostCommon()
      == [("utf-8", 2), ("GB2312", 2), ("ascii", 1)]
  {
    var a: Item, u: Item, g: Item := ("ascii", 1), ("utf-8", 2), ("GB2312", 2);
    assert [a, u, g][..2] == [a, u] && [a, u][..1] == [a] && [a][..0] == [];
    assert SortByCount([a]) == [a];
    assert InsertByCount([a], u) == [u, a] by {
      assert InsertByCount([], u) == [u];
      assert [a][..0] == [];
    }
    assert InsertByCount([u, a], g) == [u, g, a] by {
      assert [u, a][..1] == [u];
      assert InsertByCount([u], g) == [u, g];
    }
  }
}
