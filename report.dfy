/**
  The result table `analyze_directory` fills once the walk is over: one row
  per label of `most_common()`, with its count and its share of the total
  as a percentage. Percentages are exact reals here; the two-decimal string
  the table shows is presentation.
*/
module Report {
  import opened Detection
  import opened Tally

  /** One line of the result table: label, number of files, percentage. */
  datatype Row = Row(encoding: Label, count: nat, percent: real)

  /** `(count/total_files)*100`, for a run that counted something. */
  function Percent(count: nat, total: nat): real
    requires total > 0
  {
    (count as real / total as real) * 100.0
  }

  /**
    A percentage times the total is a hundred times the count, and a count
    within the total gets between zero and one hundred percent.
  */
  lemma PercentRange(count: nat, total: nat)
    requires total > 0
    ensures Percent(count, total) * (total as real) == (count as real) * 100.0
    ensures Percent(count, total) >= 0.0
    ensures count <= total ==> Percent(count, total) <= 100.0
  {
  }

  /** The rows for the entries `items`, in their order, against `total`. */
  function ReportRows(items: seq<Item>, total: nat): (r: seq<Row>)
    requires total > 0
    ensures |r| == |items|
    ensures forall i :: 0 <= i < |items| ==>
      r[i] == Row(items[i].0, items[i].1, Percent(items[i].1, total))
  {
    seq(|items|, i requires 0 <= i < |items| => Row(items[i].0, items[i].1, Percent(items[i].1, total)))
  }

  /**
    The loop that fills the table: one row per entry of `sorted`, in order,
    each with its percentage of `total`.
  */
  method TableRows(sorted: seq<Item>, total: nat) returns (rows: seq<Row>)
    requires total > 0
    ensures rows == ReportRows(sorted, total)
  {
    rows := [];
    var k := 0;
    while k < |sorted|
      invariant 0 <= k <= |sorted|
      invariant rows == ReportRows(sorted[..k], total)
    {
      var (encoding, count) := sorted[k];
      var percentage := Percent(count, total);
      rows := rows + [Row(encoding, count, percentage)];
      assert sorted[..k + 1][..k] == sorted[..k];
      k := k + 1;
    }
    assert sorted[..k] == sorted;
  }

  /** The sum of the percentage column. */
  function SumPercent(rows: seq<Row>): real
  {
    if rows == [] then 0.0 else SumPercent(rows[..|rows| - 1]) + rows[|rows| - 1].percent
  }

  /** Percentages of disjoint parts of the total add up. */
  lemma PercentAdds(a: nat, b: nat, total: nat)
    requires total > 0
    ensures Percent(a, total) + Percent(b, total) == Percent(a + b, total)
  {
    var t := total as real;
    assert (a as real) / t + (b as real) / t == ((a + b) as real) / t;
  }

  /** The percentages of a run of entries add up to the percentage of their summed counts. */
  lemma {:induction false} SumPercentRows(items: seq<Item>, total: nat)
    requires total > 0
    ensures SumPercent(ReportRows(items, total)) == Percent(SumCounts(items), total)
  {
    if items != [] {
      var init, x := items[..|items| - 1], items[|items| - 1];
      var rows := ReportRows(items, total);
      assert rows[..|rows| - 1] == ReportRows(init, total);
      SumPercentRows(init, total);
      PercentAdds(SumCounts(init), x.1, total);
    }
  }

  /**
    When the entries account for the whole total, the percentages add up to
    exactly one hundred (all ratios together make 1).
  */
  lemma PercentagesSumTo100(items: seq<Item>, total: nat)
    requires total > 0 && SumCounts(items) == total
    ensures SumPercent(ReportRows(items, total)) == 100.0
  {
    SumPercentRows(items, total);
    PercentOfWhole(total);
  }

  /** The whole total is one hundred percent. */
  lemma PercentOfWhole(total: nat)
    requires total > 0
    ensures Percent(total, total) == 100.0
  {
  }
}
