/**
  The text-file classifier: `is_text_file` decides from a file name alone
  whether the file takes part in a scan. The name's extension is split off
  the way `os.path.splitext` does it (Windows flavour: both `/` and `\` end a
  directory part), lower-cased, and looked up in a fixed allow-list.
*/
module TextFiles {

  /** The thirteen extensions the analyzer treats as text. */
  const TextExtensions: set<string> :=
    {".txt", ".csv", ".md", ".py", ".java", ".cpp", ".h",
     ".c", ".js", ".html", ".css", ".xml", ".json"}

  predicate IsSep(c: char) { c == '/' || c == '\\' }

  predicate IsDot(c: char) { c == '.' }

  /** `str.lower()` on the characters that matter here (ASCII letters). */
  function LowerChar(c: char): (r: char)
    ensures IsDot(r) <==> IsDot(c)
    ensures IsSep(r) <==> IsSep(c)
    ensures !('A' <= r <= 'Z')
  {
    if 'A' <= c <= 'Z' then (c as int + 32) as char else c
  }

  function Lower(s: string): (r: string)
    ensures |r| == |s|
    ensures forall i :: 0 <= i < |s| ==> r[i] == LowerChar(s[i])
  {
    seq(|s|, i requires 0 <= i < |s| => LowerChar(s[i]))
  }

  /** The index of the last character of `s` satisfying `p`, or -1 (`str.rfind`). */
  function LastWhere(s: string, p: char -> bool): (r: int)
    ensures -1 <= r < |s|
    ensures r >= 0 ==> p(s[r])
    ensures forall j :: r < j < |s| ==> !p(s[j])
  {
    if s == [] then -1
    else if p(s[|s| - 1]) then |s| - 1
    else LastWhere(s[..|s| - 1], p)
  }

  /**
    `os.path.splitext`: the extension starts at the last dot after the last
    separator, provided some non-dot character of the final component comes
    before that dot; leading dots never start an extension.
  */
  function SplitExt(p: string): (string, string)
  {
    var sepIndex := LastWhere(p, IsSep);
    var dotIndex := LastWhere(p, IsDot);
    if dotIndex > sepIndex && StemBefore(p, sepIndex, dotIndex)
    then (p[..dotIndex], p[dotIndex..])
    else (p, "")
  }

  /** Some character strictly between `from` and `to` is not a dot. */
  predicate StemBefore(p: string, from: int, to: int)
    requires -1 <= from && to <= |p|
  {
    exists k :: from < k < to && !IsDot(p[k])
  }

  function Extension(p: string): string { SplitExt(p).1 }

  /** `is_text_file`: the lower-cased extension is on the allow-list. */
  predicate IsTextFile(name: string)
  {
    Lower(Extension(name)) in TextExtensions
  }

  /**
    Reference definition of "the final component of `p` has an extension
    starting at index `d`": `p[d]` is a dot, the rest of `p` holds neither a
    dot nor a separator, and some character before `d` in the same component
    is not a dot.
  */
  ghost predicate HasExtAt(p: string, d: int)
  {
    && 0 <= d < |p|
    && IsDot(p[d])
    && (forall j :: d < j < |p| ==> !IsDot(p[j]) && !IsSep(p[j]))
    && (exists k :: 0 <= k < d && !IsDot(p[k]) && forall j :: k <= j < d ==> !IsSep(p[j]))
  }

  /** `splitext` cuts `p` in two, and cuts off exactly the extension `HasExtAt` describes. */
  lemma SplitExtSpec(p: string)
    ensures SplitExt(p).0 + SplitExt(p).1 == p
    ensures Extension(p) == "" <==> forall d :: 0 <= d < |p| ==> !HasExtAt(p, d)
    ensures Extension(p) != "" ==> HasExtAt(p, |p| - |Extension(p)|)
  {
    var sepIndex := LastWhere(p, IsSep);
    var dotIndex := LastWhere(p, IsDot);
    if dotIndex > sepIndex && StemBefore(p, sepIndex, dotIndex) {
      var k :| sepIndex < k < dotIndex && !IsDot(p[k]);
      assert p[..dotIndex] + p[dotIndex..] == p;
      assert forall j :: k <= j < dotIndex ==> !IsSep(p[j]);
      assert HasExtAt(p, dotIndex);
    } else {
      forall d | 0 <= d < |p| ensures !HasExtAt(p, d) {
        NoExtensionAt(p, d);
      }
    }
  }

  /** Where `splitext` finds no extension, no index starts one. */
  lemma NoExtensionAt(p: string, d: int)
    requires 0 <= d < |p|
    requires var sepIndex, dotIndex := LastWhere(p, IsSep), LastWhere(p, IsDot);
      !(dotIndex > sepIndex && StemBefore(p, sepIndex, dotIndex))
    ensures !HasExtAt(p, d)
  {
    var sepIndex, dotIndex := LastWhere(p, IsSep), LastWhere(p, IsDot);
    if IsDot(p[d]) {
      if d < dotIndex {
        LaterDotOrSep(p, d, dotIndex);
      } else if d < sepIndex {
        LaterDotOrSep(p, d, sepIndex);
      } else {
        assert d == dotIndex && sepIndex != d;
        OnlyDotsSinceSep(p, d, sepIndex);
      }
    }
  }

  /** A dot or separator after `d` means the extension cannot start at `d`. */
  lemma LaterDotOrSep(p: string, d: int, j: int)
    requires 0 <= d < j < |p| && (IsDot(p[j]) || IsSep(p[j]))
    ensures !HasExtAt(p, d)
  {
  }

  /** Nothing but dots between the last separator (or the start) and `d`: `d` starts no extension. */
  lemma OnlyDotsSinceSep(p: string, d: int, s: int)
    requires -1 <= s < d < |p|
    requires s >= 0 ==> IsSep(p[s])
    requires forall k :: s < k < d ==> IsDot(p[k])
    ensures !HasExtAt(p, d)
  {
    forall k | 0 <= k < d && !IsDot(p[k]) ensures exists j :: k <= j < d && IsSep(p[j]) {
      assert k <= s && IsSep(p[s]);
    }
  }

  /**
    The classifier against the reference definition: a name is a text file
    exactly when its final component has an extension whose lower-cased form
    is on the allow-list. A name with no extension is never a text file.
  */
  lemma IsTextFileSpec(name: string)
    ensures IsTextFile(name) <==>
      exists d :: HasExtAt(name, d) && Lower(name[d..]) in TextExtensions
  {
    SplitExtSpec(name);
    var e := Extension(name);
    if e == "" {
      assert Lower(e) == "";
      assert "" !in TextExtensions;
    } else {
      var d0 := |name| - |e|;
      assert name[d0..] == e;
      forall d | HasExtAt(name, d) ensures d == d0 {
        // both are the last dot of the name
        assert IsDot(name[d0]) && IsDot(name[d]);
      }
    }
  }

  /** Lower-casing keeps the positions of dots and separators, so it keeps `LastWhere`. */
  lemma {:induction false} LastWhereLower(s: string, p: char -> bool)
    requires forall c :: p(c) <==> p(LowerChar(c))
    ensures LastWhere(Lower(s), p) == LastWhere(s, p)
  {
    if s != [] {
      assert Lower(s)[..|s| - 1] == Lower(s[..|s| - 1]);
      LastWhereLower(s[..|s| - 1], p);
    }
  }

  /** Lower-casing commutes with `splitext`: dots and separators stay where they are. */
  lemma ExtensionLower(s: string)
    ensures Extension(Lower(s)) == Lower(Extension(s))
  {
    var t := Lower(s);
    LastWhereLower(s, IsSep);
    LastWhereLower(s, IsDot);
    var sepIndex, dotIndex := LastWhere(s, IsSep), LastWhere(s, IsDot);
    StemLower(s, sepIndex, dotIndex);
    if dotIndex > sepIndex && StemBefore(s, sepIndex, dotIndex) {
      assert t[dotIndex..] == Lower(s[dotIndex..]);
    } else {
      assert Lower("") == "";
    }
  }

  /** Lower-casing keeps which characters are dots. */
  lemma StemLower(s: string, a: int, b: int)
    requires -1 <= a && b <= |s|
    ensures StemBefore(Lower(s), a, b) == StemBefore(s, a, b)
  {
    if StemBefore(s, a, b) {
      var k :| a < k < b && !IsDot(s[k]);
      assert !IsDot(Lower(s)[k]);
    }
    if StemBefore(Lower(s), a, b) {
      var k :| a < k < b && !IsDot(Lower(s)[k]);
      assert !IsDot(s[k]);
    }
  }

  /**
    Classification ignores letter case: two names that agree once lower-cased
    are classified alike (so `notes.TXT` is accepted like `notes.txt`).
  */
  lemma CaseInsensitive(a: string, b: string)
    requires Lower(a) == Lower(b)
    ensures IsTextFile(a) == IsTextFile(b)
  {
    ExtensionLower(a);
    ExtensionLower(b);
  }

  /**
    A dot followed by neither dots nor separators, after a stem without
    separators that holds some non-dot character, is the name's extension.
  */
  lemma ExtensionOfStem(stem: string, ext: string)
    requires |ext| >= 1 && IsDot(ext[0])
    requires forall j :: 1 <= j < |ext| ==> !IsDot(ext[j]) && !IsSep(ext[j])
    requires forall j :: 0 <= j < |stem| ==> !IsSep(stem[j])
    requires exists k :: 0 <= k < |stem| && !IsDot(stem[k])
    ensures Extension(stem + ext) == ext
  {
    var p := stem + ext;
    var k :| 0 <= k < |stem| && !IsDot(stem[k]);
    assert p[k] == stem[k];
    assert forall j :: |stem| < j < |p| ==> p[j] == ext[j - |stem|];
    assert HasExtAt(p, |stem|);
    SplitExtSpec(p);
    var e := Extension(p);
    assert HasExtAt(p, |p| - |e|);
    assert IsDot(p[|stem|]) && IsDot(p[|p| - |e|]);
    assert p[|stem|..] == ext;
  }

  /** A mixed-case allowed extension is accepted. */
  lemma AcceptsMixedCase()
    ensures IsTextFile("notes.TXT")
  {
    assert "notes" + ".TXT" == "notes.TXT" && "notes"[0] == 'n';
    ExtensionOfStem("notes", ".TXT");
    assert Lower(".TXT") == ".txt";
  }

  /** Only the last extension counts. */
  lemma AcceptsLastExtension()
    ensures IsTextFile("archive.tar.json")
  {
    assert "archive.tar" + ".json" == "archive.tar.json";
    assert "archive.tar"[0] == 'a';
    ExtensionOfStem("archive.tar", ".json");
    assert Lower(".json") == ".json";
  }

  /** An extension outside the list is rejected. */
  lemma RejectsOtherExtension()
    ensures !IsTextFile("notes.docx")
  {
    assert "notes" + ".docx" == "notes.docx" && "notes"[0] == 'n';
    ExtensionOfStem("notes", ".docx");
    assert Lower(".docx") == ".docx";
  }

  /** A name without a dot has no extension. */
  lemma RejectsNoDot()
    ensures !IsTextFile("Makefile")
  {
    SplitExtSpec("Makefile");
    assert Lower("") == "";
  }

  /** A leading dot does not start an extension: `.txt` has none. */
  lemma RejectsLeadingDot()
    ensures !IsTextFile(".txt")
  {
    SplitExtSpec(".txt");
    assert Lower("") == "";
  }

  /** Nor do several leading dots: `..txt` has none. */
  lemma RejectsLeadingDots()
    ensures !IsTextFile("..txt")
  {
    SplitExtSpec("..txt");
    assert Lower("") == "";
  }

  /** The names of the worked directory example: `a.txt` and `b.txt` are text files, `c.bin` is not. */
  lemma AcceptsA()
    ensures IsTextFile("a.txt")
  {
    assert "a" + ".txt" == "a.txt" && "a"[0] == 'a';
    ExtensionOfStem("a", ".txt");
    assert Lower(".txt") == ".txt";
  }

  lemma AcceptsB()
    ensures IsTextFile("b.txt")
  {
    assert "b" + ".txt" == "b.txt" && "b"[0] == 'b';
    ExtensionOfStem("b", ".txt");
    assert Lower(".txt") == ".txt";
  }

  lemma RejectsBin()
    ensures !IsTextFile("c.bin")
  {
    assert "c" + ".bin" == "c.bin" && "c"[0] == 'c';
    ExtensionOfStem("c", ".bin");
    assert Lower(".bin") == ".bin";
  }
}
