/**
  The analyzer object: its one piece of engine state is the dictionary
  `encoding_files` from label to file list, which `analyze_directory`
  rebuilds on every run and `on_encoding_select` reads.
*/
module Analyzer {
  import opened Options
  import opened TextFiles
  import opened Detection
  import opened Tally
  import opened Scan
  import opened Report

  class EncodingAnalyzer {
    /** `self.encoding_files`: each label's file paths, in discovery order. */
    var encodingFiles: map<Label, seq<Path>>

    /** A new analyzer has seen no file. */
    constructor()
      ensures encodingFiles == map[]
    {
      encodingFiles := map[];
    }

    /**
      The lookup of `on_encoding_select`: the label's stored list, or no
      files for a label the last run did not see.
    */
    function FilesFor(l: Label): (r: seq<Path>)
      reads this
      ensures l in encodingFiles ==> r == encodingFiles[l]
      ensures l !in encodingFiles ==> r == []
    {
      if l in encodingFiles then encodingFiles[l] else []
    }

    /**
      `analyze_directory` over the walk `os.walk` yields: clear the
      dictionary, count every in-scope file with a truthy detected label in
      the counter and the total, file its path under that label, and, when
      something was counted, list the counter's entries by descending count
      with their percentages. The new state depends on the walk alone.
    */
    method AnalyzeDirectory(host: Host, walk: seq<Dir>) returns (counter: Counter, total: nat, rows: seq<Row>)
      modifies this
      ensures var h := Hits(host, walk);
        && counter == CounterOf(h)
        && total == |h|
        && encodingFiles == IndexOf(h)
      ensures counter.Valid() && counter.Total() == total
      ensures forall l :: FilesFor(l) == FilesOf(Hits(host, walk), l)
      ensures total > 0 ==> rows == ReportRows(counter.MostCommon(), total)
      ensures total == 0 ==> rows == []
      ensures total > 0 ==> SumPercent(rows) == 100.0
      ensures forall i :: 0 <= i < |rows| ==> rows[i].count == |FilesFor(rows[i].encoding)|
    {
      counter := Counter([]);
      total := 0;
      encodingFiles := map[];
      ghost var hits: seq<Hit> := [];
      var i := 0;
      while i < |walk|
        invariant 0 <= i <= |walk|
        invariant hits == Hits(host, walk[..i])
        invariant counter == CounterOf(hits)
        invariant total == |hits|
        invariant encodingFiles == IndexOf(hits)
      {
        var root, files := walk[i].root, walk[i].files;
        counter, total := AnalyzeFiles(host, root, files, hits, counter, total);
        WalkStep(host, walk, i);
        hits := hits + Accept(host, DirCandidates(host.join, root, files));
        i := i + 1;
      }
      assert walk[..i] == walk;
      TotalMatches(hits);
      forall l ensures FilesFor(l) == FilesOf(hits, l) {
        IndexLookup(hits, l);
      }

      rows := [];
      if total > 0 {
        var sortedResults := counter.MostCommon();
        rows := TableRows(sortedResults, total);
        TablePercentages(hits);
        TableCounts(hits);
      }
    }

    /**
      The inner `for file in files` for directory `root`, continuing a run
      whose hits so far are `before`: each in-scope file with a truthy label
      is counted and filed, in listing order.
    */
    method AnalyzeFiles(host: Host, root: Path, files: seq<string>, ghost before: seq<Hit>,
                        counter0: Counter, total0: nat) returns (counter: Counter, total: nat)
      requires counter0 == CounterOf(before) && total0 == |before| && encodingFiles == IndexOf(before)
      modifies this
      ensures var h := before + Accept(host, DirCandidates(host.join, root, files));
        && counter == CounterOf(h)
        && total == |h|
        && encodingFiles == IndexOf(h)
    {
      counter, total := counter0, total0;
      ghost var hits := before;
      var j := 0;
      assert hits == before + Accept(host, DirCandidates(host.join, root, files[..j])) by {
        assert files[..0] == [];
        assert before + [] == before;
      }
      while j < |files|
        invariant 0 <= j <= |files|
        invariant hits == before + Accept(host, DirCandidates(host.join, root, files[..j]))
        invariant counter == CounterOf(hits)
        invariant total == |hits|
        invariant encodingFiles == IndexOf(hits)
      {
        ghost var dirHits := Accept(host, DirCandidates(host.join, root, files[..j]));
        counter, total := CountFile(host, root, files[j], hits, counter, total);
        ghost var found := FileHits(host, root, files[j]);
        assert hits + found == before + Accept(host, DirCandidates(host.join, root, files[..j + 1])) by {
          DirStep(host, root, files, j);
          AppendAssoc(before, dirHits, found);
        }
        hits := hits + found;
        j := j + 1;
      }
      assert files[..j] == files;
    }

    /**
      The body of the inner loop for file `file` of directory `root`: an
      in-scope file whose detected label is truthy is counted in the counter
      and the total and filed under its label; any other file changes nothing.
    */
    method CountFile(host: Host, root: Path, file: string, ghost before: seq<Hit>,
                     counter0: Counter, total0: nat) returns (counter: Counter, total: nat)
      requires counter0 == CounterOf(before) && total0 == |before| && encodingFiles == IndexOf(before)
      modifies this
      ensures var h := before + FileHits(host, root, file);
        && counter == CounterOf(h)
        && total == |h|
        && encodingFiles == IndexOf(h)
    {
      counter, total := counter0, total0;
      if IsTextFile(file) {
        var filePath := host.join(root, file);
        var encoding := DetectEncoding(host, filePath);
        if Accepted(encoding) {
          var name := encoding.value;
          CounterStep(before, Hit(filePath, name));
          IndexStep(before, Hit(filePath, name));
          counter := counter.Increment(name);
          total := total + 1;
          if name !in encodingFiles {
            encodingFiles := encodingFiles[name := []];
          }
          encodingFiles := encodingFiles[name := encodingFiles[name] + [filePath]];
        }
      }
      if FileHits(host, root, file) == [] {
        assert before + [] == before;
      }
    }
  }

  /** The table of a run that counted something: its percentages add up to one hundred. */
  lemma TablePercentages(h: seq<Hit>)
    requires |h| > 0
    ensures SumPercent(ReportRows(CounterOf(h).MostCommon(), |h|)) == 100.0
  {
    TotalMatches(h);
    PercentagesSumTo100(CounterOf(h).MostCommon(), |h|);
  }

  /** Counts never increase down the table. */
  lemma TableDescending(h: seq<Hit>)
    requires |h| > 0
    ensures var rows := ReportRows(CounterOf(h).MostCommon(), |h|);
      forall i, j :: 0 <= i < j < |rows| ==> rows[i].count >= rows[j].count
  {
    var sorted := CounterOf(h).MostCommon();
    assert NonIncreasing(sorted);
  }

  /**
    Every row's count is positive and is the length of the file list its
    label opens; no label has two rows.
  */
  lemma TableCounts(h: seq<Hit>)
    requires |h| > 0
    ensures var rows := ReportRows(CounterOf(h).MostCommon(), |h|);
      && (forall i :: 0 <= i < |rows| ==> 0 < rows[i].count == |FilesOf(h, rows[i].encoding)|)
      && (forall i, j :: 0 <= i < j < |rows| ==> rows[i].encoding != rows[j].encoding)
  {
    var c := CounterOf(h);
    var sorted := c.MostCommon();
    var rows := ReportRows(sorted, |h|);
    forall i | 0 <= i < |rows| ensures 0 < rows[i].count == |FilesOf(h, rows[i].encoding)| {
      SortedEntry(h, sorted, i);
      var l := sorted[i].0;
      assert FilesOf(h, l) != [] && Count(h, l) == |FilesOf(h, l)| by { LabelsSpec(h); }
    }
    forall i, j | 0 <= i < j < |rows| ensures rows[i].encoding != rows[j].encoding {
      DistinctAfterSort(c, sorted, i, j);
    }
  }

  /** The table lists exactly the labels the run saw. */
  lemma TableLabels(h: seq<Hit>)
    requires |h| > 0
    ensures var rows := ReportRows(CounterOf(h).MostCommon(), |h|);
      forall l :: l in Labels(h) <==> exists i :: 0 <= i < |rows| && rows[i].encoding == l
  {
    assert CounterOf(h).Keys() == Labels(h) by {
      CounterOfGet(h, "");
    }
    var sorted := CounterOf(h).MostCommon();
    forall l {
      RowsHaveKeys(CounterOf(h), sorted, |h|, l);
    }
  }

  /** The rows of a permutation of the counter's entries name exactly the counter's keys. */
  lemma RowsHaveKeys(c: Counter, sorted: seq<Item>, total: nat, l: Label)
    requires multiset(sorted) == multiset(c.items) && total > 0
    ensures var rows := ReportRows(sorted, total);
      l in c.Keys() <==> exists i :: 0 <= i < |rows| && rows[i].encoding == l
  {
    var rows := ReportRows(sorted, total);
    SortedKeys(c, sorted, l);
    if exists i :: 0 <= i < |sorted| && sorted[i].0 == l {
      var i :| 0 <= i < |sorted| && sorted[i].0 == l;
      assert rows[i].encoding == l;
    }
    if exists i :: 0 <= i < |rows| && rows[i].encoding == l {
      var i :| 0 <= i < |rows| && rows[i].encoding == l;
      assert sorted[i].0 == l;
    }
  }

  /** An entry of the sorted counter of a run is a label the run saw, with its count. */
  lemma SortedEntry(h: seq<Hit>, sorted: seq<Item>, i: nat)
    requires multiset(sorted) == multiset(CounterOf(h).items) && i < |sorted|
    ensures sorted[i].0 in Labels(h) && sorted[i].1 == Count(h, sorted[i].0)
  {
    var k := EntryOf(CounterOf(h), sorted, i);
    CounterEntry(h, k);
  }

  /** A permutation of the counter's entries has the counter's keys. */
  lemma SortedKeys(c: Counter, sorted: seq<Item>, l: Label)
    requires multiset(sorted) == multiset(c.items)
    ensures l in c.Keys() <==> exists i :: 0 <= i < |sorted| && sorted[i].0 == l
  {
    if l in c.Keys() {
      var k :| 0 <= k < |c.items| && c.Keys()[k] == l;
      assert c.items[k] in multiset(sorted);
      var i :| 0 <= i < |sorted| && sorted[i] == c.items[k];
      assert sorted[i].0 == l;
    }
    if exists i :: 0 <= i < |sorted| && sorted[i].0 == l {
      var i :| 0 <= i < |sorted| && sorted[i].0 == l;
      var k := EntryOf(c, sorted, i);
      assert c.Keys()[k] == l;
    }
  }

  /** Each entry of a permutation of the counter's entries is one of them. */
  lemma EntryOf(c: Counter, sorted: seq<Item>, i: nat) returns (k: nat)
    requires multiset(sorted) == multiset(c.items) && i < |sorted|
    ensures k < |c.items| && c.items[k] == sorted[i]
  {
    assert sorted[i] in multiset(c.items);
    k :| 0 <= k < |c.items| && c.items[k] == sorted[i];
  }

  /** A permutation of a well-formed counter's entries lists each label once. */
  lemma DistinctAfterSort(c: Counter, sorted: seq<Item>, i: nat, j: nat)
    requires c.Valid() && multiset(sorted) == multiset(c.items)
    requires i < j < |sorted|
    ensures sorted[i].0 != sorted[j].0
  {
    TwoPositions(sorted, i, j);
    AtMostOnce(c.items, sorted[i]);
    assert sorted[i] != sorted[j];
    var a := EntryOf(c, sorted, i);
    var b := EntryOf(c, sorted, j);
    assert a != b;
  }

  /** An item at two positions occurs at least twice. */
  lemma TwoPositions(s: seq<Item>, i: nat, j: nat)
    requires i < j < |s|
    ensures multiset(s)[s[i]] >= if s[i] == s[j] then 2 else 1
  {
    assert s == s[..j] + [s[j]] + s[j + 1..];
    assert s[i] in s[..j];
  }

  /** Entries with distinct labels occur once each. */
  lemma {:induction false} AtMostOnce(items: seq<Item>, e: Item)
    requires forall i, j :: 0 <= i < j < |items| ==> items[i].0 != items[j].0
    ensures multiset(items)[e] <= 1
  {
    if items != [] {
      var init, last := items[..|items| - 1], items[|items| - 1];
      assert items == init + [last];
      AtMostOnce(init, e);
      if last == e {
        assert e !in init;
      }
    }
  }

  /** The host of the example below: every file reads, and every content sniffs as `utf-8`. */
  function ExampleHost(): (host: Host)
    ensures forall p :: DetectEncoding(host, p) == Some("utf-8")
  {
    Host((r: Path, n: string) => r + "/" + n, (p: Path) => Bytes([]), (b: seq<byte>) => Some("utf-8"))
  }

  /**
    A directory holding `a.txt`, `b.txt` and `c.bin`, where every file is
    detected as `utf-8`: the two text files are counted, in listing order,
    `c.bin` is absent, and the table has the single row `utf-8`, 2, 100%.
  */
  lemma TwoTextFilesAndABinary()
    ensures var host := ExampleHost();
      var h := Hits(host, [Dir("d", ["a.txt", "b.txt", "c.bin"])]);
      && h == [Hit(host.join("d", "a.txt"), "utf-8"), Hit(host.join("d", "b.txt"), "utf-8")]
      && CounterOf(h).items == [("utf-8", 2)]
      && ReportRows(CounterOf(h).MostCommon(), |h|) == [Row("utf-8", 2, 100.0)]
  {
    var host := ExampleHost();
    var pa, pb := host.join("d", "a.txt"), host.join("d", "b.txt");
    assert Hits(host, [Dir("d", ["a.txt", "b.txt", "c.bin"])]) == [Hit(pa, "utf-8"), Hit(pb, "utf-8")] by {
      HitsOfDir(host, "d", ["a.txt", "b.txt", "c.bin"]);
      ExampleCandidates();
      assert [pa, pb][..1] == [pa] && [pa][..0] == [];
      assert DetectEncoding(host, pa) == Some("utf-8") && DetectEncoding(host, pb) == Some("utf-8");
      assert Accept(host, [pa]) == [Hit(pa, "utf-8")];
      assert Accept(host, [pa, pb]) == Accept(host, [pa]) + [Hit(pb, "utf-8")];
    }
    SameLabelTwice(Hit(pa, "utf-8"), Hit(pb, "utf-8"));
  }

  /** Two hits with one label: one counter entry of two, and one row of one hundred percent. */
  lemma SameLabelTwice(x: Hit, y: Hit)
    requires x.encoding == y.encoding
    ensures CounterOf([x, y]).items == [(x.encoding, 2)]
    ensures ReportRows(CounterOf([x, y]).MostCommon(), 2) == [Row(x.encoding, 2, 100.0)]
  {
    var h, l := [x, y], x.encoding;
    assert h[..1] == [x] && [] + [x] == [x];
    CounterStep([], x);
    var c1 := CounterOf([x]);
    assert CounterOf([]) == Counter([]);
    assert Counter([]).Find(l) == -1;
    assert c1.items == [(l, 1)];
    var c := CounterOf(h);
    assert c == c1.Increment(l);
    assert c1.Find(l) == 0;
    assert c.items == [(l, 2)];
    assert c.MostCommon() == c.items by {
      assert c.items[..0] == [];
    }
    PercentOfWhole(2);
  }

  /** Of the three names only the two text files are candidates, joined to their directory. */
  lemma ExampleCandidates()
    ensures var join := ExampleHost().join;
      DirCandidates(join, "d", ["a.txt", "b.txt", "c.bin"]) == [join("d", "a.txt"), join("d", "b.txt")]
  {
    AcceptsA();
    AcceptsB();
    RejectsBin();
    var join := ExampleHost().join;
    var files := ["a.txt", "b.txt", "c.bin"];
    assert files[..2] == ["a.txt", "b.txt"];
    assert files[..2][..1] == ["a.txt"];
    assert files[..2][..1][..0] == [];
    var one := DirCandidates(join, "d", ["a.txt"]);
    assert one == [join("d", "a.txt")];
    var two := DirCandidates(join, "d", ["a.txt", "b.txt"]);
    assert two == one + [join("d", "b.txt")];
    assert DirCandidates(join, "d", files) == two + [];
  }
}
