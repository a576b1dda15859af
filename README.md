# Encoding analyzer engine, modelled in Dafny

The program is a small desktop tool. It walks a directory tree and keeps the
files whose extension marks them as text. It asks an encoding detector for each
file's encoding and counts how many files carry each encoding. It remembers,
per encoding, the paths of those files. It then shows a table of encodings by
descending count with each one's percentage of all counted files. Selecting an
encoding in the table lists its files.

This project models the engine behind that window, which lives in the
`EncodingAnalyzer` class:

- `is_text_file`: the extension test.
- `detect_encoding`: used as an abstract detector.
- The counting loops of `analyze_directory` and its result table.
- The label-to-files lookup of `on_encoding_select`.

Modules, in dependency order:

- `Options`: the `Option` datatype.
- `TextFiles`: `is_text_file`, together with the part of `os.path.splitext` it depends on and `str.lower`. `HasExtAt` is an independent reference definition of "the file name has an extension starting at this index".
- `Detection`: paths, labels and bytes. The host capabilities (path joining, reading a file, the `chardet` sniffer) are function-valued fields of a `Host` value. `detect_encoding` returns None when the read fails. `Accepted` is the loop's `if encoding:` test.
- `Tally`: `collections.Counter` as the program uses it. It is a dictionary whose keys keep the order of their first increment, with `counter[l] += 1`. `most_common()` is modelled as a stable sort by descending count, which is what `sorted(..., key=count, reverse=True)` does.
- `Scan`: what one run computes, written as functions of the walk:
  - the walk's candidate files and the files counted ("hits");
  - the labels in first-seen order, each label's paths and each label's count;
  - the counter and the dictionary, built by folding the loop body's own two updates over the hits.

  Its lemmas link the counter and the dictionary to the label, path and count definitions. They also say what a single file contributes to a run.
- `Report`: the result rows and their percentages. Percentages are exact reals.
- `Analyzer`: the `EncodingAnalyzer` class.
  - Its field `encodingFiles` is the program's `encoding_files`.
  - `AnalyzeDirectory` is the loop over the walk and the table.
  - `AnalyzeFiles` is the loop over one directory's files.
  - `CountFile` is the body of that loop.
  - `FilesFor` is the lookup.

  This module also holds the lemmas about the finished table and a worked example.

## Model

| member | source | states |
|---|---|---|
| TextFiles.LowerChar | main.py:128 | Lower-casing a character keeps dots as dots and separators as separators, and leaves no ASCII capital letter. |
| TextFiles.Lower | main.py:128 | The model's lower-casing maps `LowerChar` over the name and keeps its length (ASCII letters only; see `TextFiles.LowerChar` under Left out). |
| TextFiles.LastWhere | main.py:128 | The last index whose character satisfies the test, or -1 when there is none. That character passes the test and every later one fails it. |
| TextFiles.SplitExt | main.py:128 | `os.path.splitext`, with the extension starting at the last dot after the last separator when a non-dot character of the final component precedes it. It has no contract of its own; `TextFiles.SplitExtSpec` states its meaning. |
| TextFiles.SplitExtSpec | main.py:128 | `splitext` cuts the name into a root and an extension that concatenate back to the name. The extension is empty exactly when no index starts an extension in the sense of `HasExtAt`. Otherwise the extension starts at such an index. |
| TextFiles.NoExtensionAt | main.py:128 | When the last dot comes before the last separator, or only dots precede it in the final component, no index starts an extension. This is the "leading dots do not count" rule. |
| TextFiles.LaterDotOrSep | main.py:128 | A dot or separator after index `d` means no extension starts at `d`. |
| TextFiles.OnlyDotsSinceSep | main.py:128 | A dot preceded only by dots in its component starts no extension. |
| TextFiles.IsTextFile | main.py:125-128 | `is_text_file`: the lower-cased extension is in the set of 13. It has no contract of its own; `TextFiles.IsTextFileSpec` states its meaning and `TextFiles.CaseInsensitive` its case rule. |
| TextFiles.IsTextFileSpec | main.py:125-128 | A name is a text file exactly when its final component has an extension whose lower-cased form is one of the 13 listed. A name without an extension is never one. |
| TextFiles.LastWhereLower | main.py:128 | Lower-casing does not move the last dot or the last separator. |
| TextFiles.StemLower | main.py:128 | Lower-casing does not change whether a stretch of the name holds a non-dot character. |
| TextFiles.ExtensionLower | main.py:128 | Splitting the lower-cased name gives the lower-cased extension, so `lower()` after `splitext` is the same as before it. |
| TextFiles.CaseInsensitive | main.py:128 | Two names that are equal once lower-cased are classified the same way. |
| TextFiles.ExtensionOfStem | main.py:128 | A stem without separators that holds a non-dot character, followed by a dot and a tail with no dots or separators, has exactly that dot and tail as its extension. |
| TextFiles.AcceptsMixedCase | main.py:125-128 | `notes.TXT` is a text file. |
| TextFiles.AcceptsLastExtension | main.py:125-128 | `archive.tar.json` is a text file; only the last extension counts. |
| TextFiles.RejectsOtherExtension | main.py:125-128 | `notes.docx` is not a text file. |
| TextFiles.RejectsNoDot | main.py:125-128 | `Makefile`, which has no extension, is not a text file. |
| TextFiles.RejectsLeadingDot | main.py:125-128 | `.txt` has no extension and is not a text file. |
| TextFiles.RejectsLeadingDots | main.py:125-128 | `..txt` has no extension and is not a text file. |
| TextFiles.AcceptsA | main.py:125-128 | `a.txt` is a text file. |
| TextFiles.AcceptsB | main.py:125-128 | `b.txt` is a text file. |
| TextFiles.RejectsBin | main.py:125-128 | `c.bin` is not a text file. |
| Detection.DetectEncoding | main.py:130-137 | A read that fails gives None. A successful read gives the sniffer's verdict on exactly the bytes read. |
| Tally.Counter.Find | main.py:111 | The position of the label's entry, or -1 exactly when no entry carries the label. |
| Tally.Counter.Get | main.py:111 | `counter[l]`, reading a missing key as zero. It has no contract of its own; `Tally.IncrementSpec` and `Scan.CounterOfGet` state what it reads. |
| Tally.Counter.Increment | main.py:111 | `counter[l] += 1` keeps one entry per label. |
| Tally.IncrementSpec | main.py:111 | `counter[l] += 1` raises `l`'s count by one and leaves every other count alone. A label seen before keeps its place. A new label becomes the last key. The total rises by one. |
| Tally.BumpFacts | main.py:111 | Adding one to an existing entry keeps one entry per label and the same keys, and adds one to that label's count and to the total. |
| Tally.AppendFacts | main.py:111 | A new label gets a last entry with count one, and no other count changes. |
| Tally.SumBumped | main.py:111 | Adding one to one entry's count adds one to the sum of the counts. |
| Tally.Counter.MostCommon | main.py:120 | `most_common()` returns a permutation of the counter's entries. The counts never increase. Entries with equal counts keep their insertion order. The counts keep their total. |
| Tally.SortByCount | main.py:120 | The `sorted(items, key=count, reverse=True)` inside `most_common()`, as an insertion sort that keeps the length. `Tally.SortSortsAndPermutes` and `Tally.SortStable` state that it is a stable descending sort. |
| Tally.InsertByCount | main.py:120 | One insertion step of that sort: the entry goes after every entry whose count is at least its own, and the length grows by one. `Tally.InsertPermutes`, `Tally.InsertSorted` and `Tally.InsertStable` state the rest. |
| Tally.InsertPermutes | main.py:120 | Each insertion step of the sort keeps every entry, adds the new one and adds its count to the sum. |
| Tally.InsertSorted | main.py:120 | Inserting into a descending sequence keeps it descending. |
| Tally.AppendSmallest | main.py:120 | Appending an entry whose count is no greater than any other keeps the sequence descending. |
| Tally.InsertStable | main.py:120 | The inserted entry comes after all entries of its own count, and the other counts' entries keep their order. |
| Tally.SortSortsAndPermutes | main.py:120 | The sort's output is descending, is a permutation of its input and has the same sum of counts. |
| Tally.SortStable | main.py:120 | For every count, the sort keeps the relative order of the entries with that count. |
| Tally.MostCommonKeepsTies | main.py:120 | Take `ascii` counted once, then `utf-8` and `GB2312` counted twice each. `most_common()` lists `utf-8`, then `GB2312`, then `ascii`. |
| Scan.DirCandidates | main.py:106-108 | The in-scope files of one listing, joined to their directory, in listing order. It has no contract of its own; `Scan.DirCandidatesConcat`, `Scan.DirStep` and the worked example `Analyzer.ExampleCandidates` state its behaviour. |
| Scan.Candidates | main.py:105-108 | The in-scope files of the whole walk, in walk order. `Scan.CandidatesConcat` and `Scan.FiledUnderOwnLabel` state its meaning. |
| Scan.Accept | main.py:109-110 | The candidates whose detected label is truthy, each paired with that label. `Scan.AcceptConcat`, `Scan.PathMultiplicity` and `Scan.SkippedFileChangesNothing` state its meaning. |
| Scan.Hits | main.py:105-110 | Every file the run counts, with its label, in discovery order. `Scan.FiledUnderOwnLabel`, `Scan.CountedFileAddsOneHit` and `Scan.SkippedFileChangesNothing` state its meaning. |
| Scan.CounterOf | main.py:100-111 | Incrementing once per counted file, from an empty `Counter()`, gives a counter with one entry per label. |
| Scan.Record | main.py:114-116 | One hit's update of the dictionary: an empty list for a label seen for the first time, then the path appended. `Scan.IndexSpec` states what repeated updates build. |
| Scan.IndexOf | main.py:102-116 | The dictionary of a run: `Record` applied for each counted file, starting from the cleared dictionary. `Scan.IndexSpec`, `Scan.IndexLookup` and `Scan.CounterMatchesIndex` state its meaning. |
| Scan.CounterStep | main.py:111 | Counting one more file is `counter[label] += 1` applied to the counter so far. |
| Scan.IndexStep | main.py:114-116 | Filing one more file is the loop's update of the dictionary: create the label's empty list the first time, then append the path. |
| Scan.LabelsSpec | main.py:111-116 | A label appears exactly when some counted file carries it, and each label appears once. A label's count is the length of its path list. |
| Scan.CounterOfGet | main.py:100-116 | The counter's keys are the detected labels in first-seen order. The counter reads back each label's number of counted files, and zero for any other label. |
| Scan.CounterEntry | main.py:100-116 | Every counter entry is a label the run saw, paired with the number of files carrying it. |
| Scan.IndexSpec | main.py:102-116 | Starting from the cleared dictionary, a label is a key exactly when some counted file carries it. Its list holds exactly that label's paths, in discovery order. |
| Scan.CounterMatchesIndex | main.py:111-116 | After any run the counter and the dictionary have the same labels, and each label's count is the length of its list. |
| Scan.TotalMatches | main.py:100-116 | The counts sum to the number of counted files, which is what `total_files` holds. |
| Scan.IndexLookup | main.py:151-153 | Looking a label up gives its files in discovery order, and nothing for a label the run never saw. |
| Scan.DirStep | main.py:106-110 | The files counted from a directory are those listed before a file, followed by that file's own contribution. |
| Scan.WalkStep | main.py:105-106 | Finishing one more directory of the walk appends the files counted from its listing. |
| Scan.FilesOfConcat | main.py:116 | Files found later are appended after files found earlier, so every list keeps discovery order. |
| Scan.DirCandidatesConcat | main.py:106-108 | The candidates of a split listing are those of its two parts, one after the other. |
| Scan.CandidatesConcat | main.py:105-108 | The candidates of a split walk are those of its two parts, one after the other. |
| Scan.AcceptConcat | main.py:109-110 | Detection on a split candidate list counts the files of its two parts, one after the other. |
| Scan.HitsConcat | main.py:105-110 | The files counted in a walk are those of its two parts, one after the other. |
| Scan.HitsOfDir | main.py:105-110 | A one-directory walk counts the accepted files of that directory's listing. |
| Scan.HitsConcat3 | main.py:105-110 | The files counted in a walk of three parts are those of each part, in order. |
| Scan.HitsOfSplitDir | main.py:106-110 | Splitting one directory's listing in two splits the files it counts in two. |
| Scan.HitsAroundDir | main.py:105-110 | Splitting a directory's listing inside a walk splits the walk's counted files at that point. |
| Scan.FileHits | main.py:107-110 | A single file contributes at most one counted file, exactly as a one-file directory would. |
| Scan.HitsAroundFile | main.py:105-110 | A file's contribution sits between that of everything walked before it and everything walked after it. |
| Scan.SkippedFileChangesNothing | main.py:107-110 | A file that is out of scope, or whose label is None or empty, changes nothing. The counted files, and with them the counter, the total and the dictionary, are those of the walk without it. |
| Scan.UnreadableFileChangesNothing | main.py:130-137 | A file whose read raises is skipped the same way. |
| Scan.CountedFileAddsOneHit | main.py:107-112 | A counted file adds exactly one entry, with its own path and label, between what came before it and what comes after it. |
| Scan.PathMultiplicity | main.py:108-116 | A path is filed under its own detected label as many times as it was a candidate, and under no other label. |
| Scan.FiledUnderOwnLabel | main.py:105-116 | A path is in label `l`'s list exactly when the walk lists it in scope and the detector gives `l`. It appears once per listing. |
| Report.Percent | main.py:122 | `(count/total_files)*100` as an exact real, defined only when the total is positive. `Report.PercentRange` and `Report.PercentagesSumTo100` state its meaning. |
| Report.PercentRange | main.py:122 | A percentage times the total is a hundred times the count. Every percentage is at least zero, and a count within the total gives at most 100. |
| Report.ReportRows | main.py:121-123 | One row per sorted entry, in order, each with the label, the count and `count/total*100`. |
| Report.TableRows | main.py:121-123 | The loop over the sorted results produces exactly those rows. |
| Report.PercentAdds | main.py:122 | Percentages of two parts of the total add up to the percentage of their sum. |
| Report.SumPercentRows | main.py:121-122 | The percentages of a list of entries add up to the percentage of their summed counts. |
| Report.PercentagesSumTo100 | main.py:119-122 | When the entries account for the whole total, the percentages add up to exactly 100. |
| Report.PercentOfWhole | main.py:122 | The whole total is 100 percent. |
| Analyzer.EncodingAnalyzer.constructor | main.py:15 | A new analyzer holds an empty dictionary. |
| Analyzer.EncodingAnalyzer.FilesFor | main.py:151-153 | A label in the dictionary gives its stored list. A label not in it gives no files. |
| Analyzer.EncodingAnalyzer.AnalyzeDirectory | main.py:99-123 | A run builds the counter, the total and the dictionary of the walk's counted files, whatever the dictionary held before. The counter's counts sum to the total, and every label's lookup gives its files. When the total is positive, the rows are the `most_common()` entries with their percentages, the percentages sum to 100, and each row's count is the length of its label's list. When the total is zero there are no rows. |
| Analyzer.EncodingAnalyzer.AnalyzeFiles | main.py:106-116 | One directory's files extend the counter, the total and the dictionary to the files counted so far plus that directory's. |
| Analyzer.EncodingAnalyzer.CountFile | main.py:107-116 | One file extends the counter, the total and the dictionary by its own contribution: one counted file or none. |
| Analyzer.TablePercentages | main.py:119-123 | A run that counted something has table percentages adding up to 100. |
| Analyzer.TableDescending | main.py:120-123 | Counts never increase down the table. |
| Analyzer.TableCounts | main.py:111-123 | Every row's count is positive and equals the length of the list its label opens. No label has two rows. |
| Analyzer.TableLabels | main.py:119-123 | The table lists exactly the labels the run saw. |
| Analyzer.RowsHaveKeys | main.py:120-123 | The rows built from a permutation of the counter's entries name exactly the counter's keys. |
| Analyzer.SortedEntry | main.py:120 | Every entry of the sorted counter is a label of the run, paired with its count. |
| Analyzer.SortedKeys | main.py:120 | A permutation of the counter's entries has the counter's keys. |
| Analyzer.DistinctAfterSort | main.py:120 | Sorting a well-formed counter's entries lists each label once. |
| Analyzer.AtMostOnce | main.py:120 | In a list of entries with distinct labels, each entry occurs at most once. |
| Analyzer.TwoTextFilesAndABinary | main.py:99-128 | Take a directory holding `a.txt`, `b.txt` and `c.bin`, where every file is detected as `utf-8`. The two text files are counted in listing order and `c.bin` is not. The counter is `utf-8: 2`. The table is the single row `utf-8`, 2, 100%. |
| Analyzer.SameLabelTwice | main.py:111-123 | Two files with one label give one counter entry of two, and one row of 100 percent. |
| Analyzer.ExampleCandidates | main.py:105-108 | Of `a.txt`, `b.txt` and `c.bin`, only the two text files become candidates, joined to their directory. |

## Left out

- The tkinter window is not modelled: widgets, styles, scrollbars, event bindings, the directory dialog, the warning box and `select_directory`/`start_analyze`. It is presentation.
- Opening a file on double-click (`os.startfile`) is not modelled. It is an operating-system call.
- `os.walk`: the walk is an input sequence of `(directory, file names)` pairs in the order the walk yields them. Subdirectory names play no part.
- Reading a file and `chardet.detect` are functions of the `Host` input. Any exception while opening or reading becomes a failed read, which gives None. The sniffer itself is uninterpreted; that includes its confidence threshold and an exception inside it, both of which appear as None.
- `os.path.join` is an uninterpreted function of the `Host` input.
- Floating point and the `:.2f` formatting of percentages are left out. Percentages are exact reals `count/total*100`.
- Analyzer.EncodingAnalyzer.AnalyzeDirectory: returns the counter, the total and the rows as results instead of inserting the rows into the tree widget. Rows left in the tree from an earlier run are not modelled.
- Analyzer.EncodingAnalyzer.FilesFor: returns the list instead of inserting it into the file list widget. The label is taken as given; the tree widget reading it back from `values[0]` is not modelled.
- TextFiles.LowerChar: lower-cases ASCII letters only. The only non-ASCII character whose lower-case form is ASCII is the Kelvin sign, which becomes `k`. None of the 13 extensions contains `k`, so this does not change which names are text files.
- TextFiles.SplitExt: treats both `/` and `\` as separators, as `splitext` does on Windows, where `os.startfile` runs. On POSIX only `/` separates, so a name with `\` before its last dot is classified differently there: `x\.txt` has the extension `.txt` on POSIX but none in the model.

## Notes

- The loop's `if encoding:` is false for None and also for an empty label. The model drops both (`Detection.Accepted`). An empty label cannot be told apart from "no label" by what the program does next.
- Python integers are unbounded, so counts and the total are `nat` with no wrap-around.
