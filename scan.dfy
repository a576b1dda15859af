/**
  What one run of `analyze_directory` computes, as functions of the walk.

  The walk is the sequence of `(root, files)` pairs `os.walk` yields. The
  in-scope files are joined to their directory (the candidates); each
  candidate whose detected encoding is truthy becomes a hit. From the hits
  follow the labels in first-seen order, each label's file list in discovery
  order, and each label's count.
*/
module Scan {
  import opened Options
  import opened TextFiles
  import opened Detection
  import opened Tally

  /** One triple of `os.walk`: a directory and the names of its files (subdirectory names play no part). */
  datatype Dir = Dir(root: Path, files: seq<string>)

  /** A file the loop counted: its joined path and the label detected for it. */
  datatype Hit = Hit(path: Path, encoding: Label)

  /** The in-scope files of one directory, joined to it, in listing order. */
  function DirCandidates(join: (Path, string) -> Path, root: Path, files: seq<string>): seq<Path>
  {
    if files == [] then []
    else
      var name := files[|files| - 1];
      DirCandidates(join, root, files[..|files| - 1])
        + (if IsTextFile(name) then [join(root, name)] else [])
  }

  /** The in-scope files of the whole walk, in walk order. */
  function Candidates(join: (Path, string) -> Path, walk: seq<Dir>): seq<Path>
  {
    if walk == [] then []
    else
      var d := walk[|walk| - 1];
      Candidates(join, walk[..|walk| - 1]) + DirCandidates(join, d.root, d.files)
  }

  /** The candidates whose detection gives a truthy label, paired with it. */
  function Accept(host: Host, paths: seq<Path>): seq<Hit>
  {
    if paths == [] then []
    else
      var p := paths[|paths| - 1];
      var e := DetectEncoding(host, p);
      Accept(host, paths[..|paths| - 1]) + (if Accepted(e) then [Hit(p, e.value)] else [])
  }

  /** Every file the run counts, in discovery order. */
  function Hits(host: Host, walk: seq<Dir>): seq<Hit>
  {
    Accept(host, Candidates(host.join, walk))
  }

  /** The labels of `h`, each once, in the order they first occur. */
  function Labels(h: seq<Hit>): seq<Label>
  {
    if h == [] then []
    else
      var rest := Labels(h[..|h| - 1]);
      var l := h[|h| - 1].encoding;
      if l in rest then rest else rest + [l]
  }

  /** The paths of `h` labelled `l`, in discovery order. */
  function FilesOf(h: seq<Hit>, l: Label): seq<Path>
  {
    if h == [] then []
    else FilesOf(h[..|h| - 1], l) + (if h[|h| - 1].encoding == l then [h[|h| - 1].path] else [])
  }

  /** How many hits carry label `l`. */
  function Count(h: seq<Hit>, l: Label): nat
  {
    if h == [] then 0
    else Count(h[..|h| - 1], l) + (if h[|h| - 1].encoding == l then 1 else 0)
  }

  /**
    The `Counter` the run builds: `counter[label] += 1` for each hit, in
    discovery order, starting from an empty counter.
  */
  function CounterOf(h: seq<Hit>): (c: Counter)
    ensures c.Valid()
  {
    if h == [] then Counter([]) else CounterOf(h[..|h| - 1]).Increment(h[|h| - 1].encoding)
  }

  /**
    The loop's update of `encoding_files` for one hit: give the label an
    empty list the first time it is seen, then append the path to its list.
  */
  function Record(index: map<Label, seq<Path>>, x: Hit): map<Label, seq<Path>>
  {
    var index1 := if x.encoding in index then index else index[x.encoding := []];
    index1[x.encoding := index1[x.encoding] + [x.path]]
  }

  /** The label-to-files dictionary the run builds, one `Record` per hit. */
  function IndexOf(h: seq<Hit>): map<Label, seq<Path>>
  {
    if h == [] then map[] else Record(IndexOf(h[..|h| - 1]), h[|h| - 1])
  }

  lemma Regroup<T>(a: seq<T>, b: seq<T>, c: seq<T>, d: seq<T>)
    ensures a + (b + c) + d == (a + b) + (c + d)
  {
  }

  lemma AppendAssoc<T>(a: seq<T>, b: seq<T>, c: seq<T>)
    ensures (a + b) + c == a + (b + c)
  {
  }

  lemma SnocPrefix<T>(s: seq<T>, x: T)
    ensures (s + [x])[..|s|] == s
  {
  }

  /**
    A label is listed exactly when some hit carries it; labels are listed
    once each; each label's count is the length of its file list.
  */
  lemma {:induction false} LabelsSpec(h: seq<Hit>)
    ensures forall l :: l in Labels(h) <==> FilesOf(h, l) != []
    ensures forall i, j :: 0 <= i < j < |Labels(h)| ==> Labels(h)[i] != Labels(h)[j]
    ensures forall l :: Count(h, l) == |FilesOf(h, l)|
  {
    if h != [] {
      LabelsSpec(h[..|h| - 1]);
    }
  }

  /** Counting one more hit is `counter[label] += 1` on the counter so far. */
  lemma CounterStep(h: seq<Hit>, x: Hit)
    ensures CounterOf(h + [x]) == CounterOf(h).Increment(x.encoding)
  {
    SnocPrefix(h, x);
  }

  /** Recording one more hit is the loop's update of `encoding_files`. */
  lemma IndexStep(h: seq<Hit>, x: Hit)
    ensures IndexOf(h + [x]) == Record(IndexOf(h), x)
  {
    SnocPrefix(h, x);
  }

  /**
    The counter against the reference definitions: its keys are the labels
    in first-seen order, and it reads back each label's number of hits.
  */
  lemma {:induction false} CounterOfGet(h: seq<Hit>, l: Label)
    ensures CounterOf(h).Keys() == Labels(h)
    ensures CounterOf(h).Get(l) == Count(h, l)
  {
    if h != [] {
      var init, x := h[..|h| - 1], h[|h| - 1];
      var c := CounterOf(init);
      CounterOfGet(init, l);
      IncrementSpec(c, x.encoding);
      assert c.Find(x.encoding) >= 0 <==> x.encoding in c.Keys() by {
        var i := c.Find(x.encoding);
        if i >= 0 {
          assert c.Keys()[i] == x.encoding;
        }
      }
    }
  }

  /** An entry of a run's counter is a label of the run, with its number of hits. */
  lemma CounterEntry(h: seq<Hit>, k: nat)
    requires k < |CounterOf(h).items|
    ensures CounterOf(h).items[k].0 in Labels(h)
    ensures CounterOf(h).items[k].1 == Count(h, CounterOf(h).items[k].0)
  {
    var c := CounterOf(h);
    var l := c.items[k].0;
    CounterOfGet(h, l);
    assert c.Keys()[k] == l;
    FindUnique(c.items, l, k);
  }

  /**
    The dictionary against the reference definitions: a label is a key
    exactly when some hit carries it, and its list is that label's paths in
    discovery order.
  */
  lemma {:induction false} IndexSpec(h: seq<Hit>, l: Label)
    ensures l in IndexOf(h) <==> l in Labels(h)
    ensures l in IndexOf(h) ==> IndexOf(h)[l] == FilesOf(h, l)
  {
    if h != [] {
      var init, x := h[..|h| - 1], h[|h| - 1];
      IndexSpec(init, l);
      if l == x.encoding && l !in IndexOf(init) {
        assert FilesOf(init, l) == [] by {
          LabelsSpec(init);
        }
      }
    }
  }

  /**
    After any run the counter and the dictionary have the same labels, and
    each label's count is the length of its file list.
  */
  lemma CounterMatchesIndex(h: seq<Hit>)
    ensures forall l :: l in CounterOf(h).Keys() <==> l in IndexOf(h)
    ensures forall l :: l in IndexOf(h) ==> CounterOf(h).Get(l) == |IndexOf(h)[l]|
  {
    LabelsSpec(h);
    forall l ensures CounterOf(h).Keys() == Labels(h) && CounterOf(h).Get(l) == Count(h, l) {
      CounterOfGet(h, l);
    }
    forall l ensures (l in IndexOf(h) <==> l in Labels(h)) && (l in IndexOf(h) ==> IndexOf(h)[l] == FilesOf(h, l)) {
      IndexSpec(h, l);
    }
  }

  /** The counts add up to the number of hits (`total_files`). */
  lemma {:induction false} TotalMatches(h: seq<Hit>)
    ensures CounterOf(h).Total() == |h|
  {
    if h != [] {
      var init, x := h[..|h| - 1], h[|h| - 1];
      TotalMatches(init);
      IncrementSpec(CounterOf(init), x.encoding);
    }
  }

  /** Looking a label up in the dictionary gives its hits' paths, and nothing for an unseen label. */
  lemma IndexLookup(h: seq<Hit>, l: Label)
    ensures (if l in IndexOf(h) then IndexOf(h)[l] else []) == FilesOf(h, l)
  {
    IndexSpec(h, l);
    LabelsSpec(h);
  }

  /** Looking at one more file of the directory being listed adds that file's hit, if any. */
  lemma DirStep(host: Host, root: Path, files: seq<string>, j: nat)
    requires j < |files|
    ensures Accept(host, DirCandidates(host.join, root, files[..j + 1])) ==
      Accept(host, DirCandidates(host.join, root, files[..j])) + FileHits(host, root, files[j])
  {
    var p := host.join(root, files[j]);
    assert files[..j + 1][..j] == files[..j];
    var extra := if IsTextFile(files[j]) then [p] else [];
    AcceptConcat(host, DirCandidates(host.join, root, files[..j]), extra);
    if extra != [] {
      assert extra[..0] == [];
    }
  }

  /** Finishing one more directory of the walk adds the hits of its listing. */
  lemma WalkStep(host: Host, walk: seq<Dir>, i: nat)
    requires i < |walk|
    ensures Hits(host, walk[..i + 1]) ==
      Hits(host, walk[..i]) + Accept(host, DirCandidates(host.join, walk[i].root, walk[i].files))
  {
    assert walk[..i + 1][..i] == walk[..i];
    AcceptConcat(host, Candidates(host.join, walk[..i]), DirCandidates(host.join, walk[i].root, walk[i].files));
  }

  /** Files found later are appended after files found earlier. */
  lemma {:induction false} FilesOfConcat(h1: seq<Hit>, h2: seq<Hit>, l: Label)
    ensures FilesOf(h1 + h2, l) == FilesOf(h1, l) + FilesOf(h2, l)
  {
    if h2 != [] {
      var init, x := h2[..|h2| - 1], h2[|h2| - 1];
      assert h1 + h2 == (h1 + init) + [x];
      assert h2 == init + [x];
      FilesOfConcat(h1, init, l);
      SnocPrefix(h1 + init, x);
      SnocPrefix(init, x);
    } else {
      assert h1 + h2 == h1;
    }
  }

  lemma {:induction false} DirCandidatesConcat(join: (Path, string) -> Path, root: Path, f1: seq<string>, f2: seq<string>)
    ensures DirCandidates(join, root, f1 + f2) == DirCandidates(join, root, f1) + DirCandidates(join, root, f2)
  {
    if f2 != [] {
      var init, x := f2[..|f2| - 1], f2[|f2| - 1];
      assert f1 + f2 == (f1 + init) + [x];
      assert f2 == init + [x];
      DirCandidatesConcat(join, root, f1, init);
      SnocPrefix(f1 + init, x);
      SnocPrefix(init, x);
    } else {
      assert f1 + f2 == f1;
    }
  }

  lemma {:induction false} CandidatesConcat(join: (Path, string) -> Path, w1: seq<Dir>, w2: seq<Dir>)
    ensures Candidates(join, w1 + w2) == Candidates(join, w1) + Candidates(join, w2)
  {
    if w2 != [] {
      var init, x := w2[..|w2| - 1], w2[|w2| - 1];
      assert w1 + w2 == (w1 + init) + [x];
      assert w2 == init + [x];
      CandidatesConcat(join, w1, init);
      SnocPrefix(w1 + init, x);
      SnocPrefix(init, x);
    } else {
      assert w1 + w2 == w1;
    }
  }

  lemma {:induction false} AcceptConcat(host: Host, p1: seq<Path>, p2: seq<Path>)
    ensures Accept(host, p1 + p2) == Accept(host, p1) + Accept(host, p2)
  {
    if p2 != [] {
      var init, x := p2[..|p2| - 1], p2[|p2| - 1];
      assert p1 + p2 == (p1 + init) + [x];
      assert p2 == init + [x];
      AcceptConcat(host, p1, init);
      SnocPrefix(p1 + init, x);
      SnocPrefix(init, x);
    } else {
      assert p1 + p2 == p1;
    }
  }

  /** The hits of a walk are those of its parts, one after the other. */
  lemma HitsConcat(host: Host, w1: seq<Dir>, w2: seq<Dir>)
    ensures Hits(host, w1 + w2) == Hits(host, w1) + Hits(host, w2)
  {
    CandidatesConcat(host.join, w1, w2);
    AcceptConcat(host, Candidates(host.join, w1), Candidates(host.join, w2));
  }

  /** The hits of a one-directory walk are those of its in-scope files. */
  lemma HitsOfDir(host: Host, root: Path, files: seq<string>)
    ensures Hits(host, [Dir(root, files)]) == Accept(host, DirCandidates(host.join, root, files))
  {
    var w := [Dir(root, files)];
    assert w[..0] == [];
    assert Candidates(host.join, w) == [] + DirCandidates(host.join, root, files);
    assert [] + DirCandidates(host.join, root, files) == DirCandidates(host.join, root, files);
  }

  lemma HitsConcat3(host: Host, w1: seq<Dir>, w2: seq<Dir>, w3: seq<Dir>)
    ensures Hits(host, w1 + w2 + w3) == Hits(host, w1) + Hits(host, w2) + Hits(host, w3)
  {
    HitsConcat(host, w1 + w2, w3);
    HitsConcat(host, w1, w2);
  }

  /** Splitting a directory's listing in two splits its hits in two. */
  lemma HitsOfSplitDir(host: Host, root: Path, f1: seq<string>, f2: seq<string>)
    ensures Hits(host, [Dir(root, f1 + f2)]) == Hits(host, [Dir(root, f1)]) + Hits(host, [Dir(root, f2)])
  {
    HitsOfDir(host, root, f1 + f2);
    HitsOfDir(host, root, f1);
    HitsOfDir(host, root, f2);
    DirCandidatesConcat(host.join, root, f1, f2);
    AcceptConcat(host, DirCandidates(host.join, root, f1), DirCandidates(host.join, root, f2));
  }

  /** Splitting one directory's listing in two splits the hits of the walk at that point. */
  lemma HitsAroundDir(host: Host, pre: seq<Dir>, root: Path, f1: seq<string>, f2: seq<string>, post: seq<Dir>)
    ensures Hits(host, pre + [Dir(root, f1 + f2)] + post) ==
      Hits(host, pre + [Dir(root, f1)]) + Hits(host, [Dir(root, f2)] + post)
  {
    HitsConcat3(host, pre, [Dir(root, f1 + f2)], post);
    HitsOfSplitDir(host, root, f1, f2);
    HitsConcat(host, pre, [Dir(root, f1)]);
    HitsConcat(host, [Dir(root, f2)], post);
    Regroup(Hits(host, pre), Hits(host, [Dir(root, f1)]), Hits(host, [Dir(root, f2)]), Hits(host, post));
  }

  /** What a single file listed in directory `root` contributes: no hit or one. */
  function FileHits(host: Host, root: Path, name: string): (r: seq<Hit>)
    ensures r == Hits(host, [Dir(root, [name])])
    ensures |r| <= 1
  {
    assert [name][..0] == [];
    HitsOfDir(host, root, [name]);
    var p := host.join(root, name);
    var e := DetectEncoding(host, p);
    if IsTextFile(name) && Accepted(e) then
      assert Accept(host, [p]) == Accept(host, []) + [Hit(p, e.value)];
      [Hit(p, e.value)]
    else []
  }

  /** A file's hits sit between those of everything walked before it and after it. */
  lemma HitsAroundFile(host: Host, pre: seq<Dir>, root: Path, f1: seq<string>, name: string,
                       f2: seq<string>, post: seq<Dir>)
    ensures Hits(host, pre + [Dir(root, f1 + [name] + f2)] + post) ==
      Hits(host, pre + [Dir(root, f1)]) + FileHits(host, root, name) + Hits(host, [Dir(root, f2)] + post)
  {
    HitsAroundDir(host, pre, root, f1 + [name], f2, post);
    HitsAroundDir(host, pre, root, f1, [name], []);
    assert pre + [Dir(root, f1 + [name])] + [] == pre + [Dir(root, f1 + [name])];
    assert [Dir(root, [name])] + [] == [Dir(root, [name])];
  }

  /**
    A file that is out of scope, or whose detection gives no label (an
    unreadable file included), changes nothing: the run's hits, and so its
    counter, total and dictionary, are those of the walk without it.
  */
  lemma SkippedFileChangesNothing(host: Host, pre: seq<Dir>, root: Path, f1: seq<string>, name: string,
                                  f2: seq<string>, post: seq<Dir>)
    requires !IsTextFile(name) || !Accepted(DetectEncoding(host, host.join(root, name)))
    ensures Hits(host, pre + [Dir(root, f1 + [name] + f2)] + post) == Hits(host, pre + [Dir(root, f1 + f2)] + post)
  {
    HitsAroundFile(host, pre, root, f1, name, f2, post);
    HitsAroundDir(host, pre, root, f1, f2, post);
    DropEmpty(Hits(host, pre + [Dir(root, f1)]), FileHits(host, root, name), Hits(host, [Dir(root, f2)] + post));
  }

  /** A file that cannot be read is skipped like one the detector gives no label. */
  lemma UnreadableFileChangesNothing(host: Host, pre: seq<Dir>, root: Path, f1: seq<string>, name: string,
                                     f2: seq<string>, post: seq<Dir>)
    requires host.read(host.join(root, name)).ReadFailed?
    ensures Hits(host, pre + [Dir(root, f1 + [name] + f2)] + post) == Hits(host, pre + [Dir(root, f1 + f2)] + post)
  {
    SkippedFileChangesNothing(host, pre, root, f1, name, f2, post);
  }

  lemma DropEmpty<T>(a: seq<T>, f: seq<T>, b: seq<T>)
    requires f == []
    ensures a + f + b == a + b
  {
  }

  /**
    A counted file adds exactly one hit, with its own path and label, between
    the hits of what was walked before and after it.
  */
  lemma CountedFileAddsOneHit(host: Host, pre: seq<Dir>, root: Path, f1: seq<string>, name: string,
                              f2: seq<string>, post: seq<Dir>)
    requires IsTextFile(name) && Accepted(DetectEncoding(host, host.join(root, name)))
    ensures var p := host.join(root, name);
      Hits(host, pre + [Dir(root, f1 + [name] + f2)] + post) ==
      Hits(host, pre + [Dir(root, f1)]) + [Hit(p, DetectEncoding(host, p).value)] + Hits(host, [Dir(root, f2)] + post)
  {
    HitsAroundFile(host, pre, root, f1, name, f2, post);
  }

  /**
    Each path is filed under its own detected label, once per time the walk
    lists it, and under no other label.
  */
  lemma {:induction false} PathMultiplicity(host: Host, paths: seq<Path>, l: Label, p: Path)
    ensures multiset(FilesOf(Accept(host, paths), l))[p] ==
      if DetectEncoding(host, p) == Some(l) && l != "" then multiset(paths)[p] else 0
  {
    if paths != [] {
      var init, q := paths[..|paths| - 1], paths[|paths| - 1];
      assert paths == init + [q];
      PathMultiplicity(host, init, l, p);
      var e := DetectEncoding(host, q);
      var extra := if Accepted(e) then [Hit(q, e.value)] else [];
      FilesOfConcat(Accept(host, init), extra, l);
    }
  }

  /**
    The walk-level statement: path `p` is in label `l`'s list exactly when it
    is an in-scope file of the walk detected as `l`, and it is there as many
    times as the walk lists it (once, for a walk without repeats).
  */
  lemma FiledUnderOwnLabel(host: Host, walk: seq<Dir>, l: Label, p: Path)
    ensures var c := Candidates(host.join, walk);
      multiset(FilesOf(Hits(host, walk), l))[p] ==
        if DetectEncoding(host, p) == Some(l) && l != "" then multiset(c)[p] else 0
    ensures p in FilesOf(Hits(host, walk), l) <==>
      p in Candidates(host.join, walk) && DetectEncoding(host, p) == Some(l) && l != ""
  {
    PathMultiplicity(host, Candidates(host.join, walk), l, p);
  }
}
