/** core/analyzer.py: per-file tallies of status codes, their total across
    files, and the report text. */
module LogAnalyzer {
  import opened Text
  import opened Dicts
  import opened Tally
  import opened Sorting
  import opened Layout

  // ------------------------------------------------------------ tallies

  /** `count_codes_for_multiple_files`: the same files in the same order, each
      with `count_codes_for_file` (that is, `Counter`) of its codes. */
  method CountCodesForMultipleFiles(codesPerFile: Dict<seq<int>>) returns (perFile: Dict<map<int, int>>)
    requires IsDict(codesPerFile)
    ensures IsDict(perFile) && Keys(perFile) == Keys(codesPerFile)
    ensures forall i :: 0 <= i < |perFile| ==> perFile[i].1 == Counts(codesPerFile[i].1)
  {
    perFile := [];
    var i := 0;
    while i < |codesPerFile|
      invariant i <= |codesPerFile|
      invariant IsDict(perFile) && Keys(perFile) == Keys(codesPerFile[..i])
      invariant forall j :: 0 <= j < |perFile| ==> perFile[j].1 == Counts(codesPerFile[j].1)
    {
      var (path, codes) := codesPerFile[i];
      assert path !in Keys(codesPerFile[..i]) by {
        forall j | 0 <= j < i ensures Keys(codesPerFile[..i])[j] != path {
          assert Keys(codesPerFile)[j] != Keys(codesPerFile)[i];
        }
      }
      perFile := Put(perFile, path, Counts(codes));
      assert Keys(codesPerFile[..i + 1]) == Keys(codesPerFile[..i]) + [path];
      i := i + 1;
    }
    assert codesPerFile[..i] == codesPerFile;
  }

  /** `aggregate_total_counts`: `Counter.update` with each file's tally in
      turn. The keys are those of some file, and each count is the sum over
      the files of that code's count, an absent code counting as 0. */
  method AggregateTotalCounts(perFile: Dict<map<int, int>>) returns (total: map<int, int>)
    ensures total == SumTallies(Values(perFile))
    ensures forall c :: c in total <==> exists i :: 0 <= i < |perFile| && c in perFile[i].1
    ensures forall c :: Get0(total, c) == ColumnSum(Values(perFile), c)
  {
    total := map[];
    var i := 0;
    while i < |perFile|
      invariant i <= |perFile|
      invariant total == SumTallies(Values(perFile)[..i])
    {
      assert Values(perFile)[..i + 1][..i] == Values(perFile)[..i];
      total := AddCounts(total, perFile[i].1);
      i := i + 1;
    }
    assert Values(perFile)[..i] == Values(perFile);
    forall c ensures c in total <==> exists i :: 0 <= i < |perFile| && c in perFile[i].1 {
      InSomeIndex(Values(perFile), c);
      assert forall i :: 0 <= i < |perFile| ==> Values(perFile)[i] == perFile[i].1;
    }
  }

  /** The total does not depend on the order in which the files come. */
  lemma AggregateOrderFree(a: Dict<map<int, int>>, b: Dict<map<int, int>>)
    requires multiset(Values(a)) == multiset(Values(b))
    ensures SumTallies(Values(a)) == SumTallies(Values(b))
  {
    SumTalliesPermutation(Values(a), Values(b));
  }

  /** Counting each file's codes and adding the tallies up counts every code
      of every file. */
  lemma TotalIsCountOfAllCodes(codesPerFile: Dict<seq<int>>, perFile: Dict<map<int, int>>)
    requires |perFile| == |codesPerFile|
    requires forall i :: 0 <= i < |perFile| ==> perFile[i].1 == Counts(codesPerFile[i].1)
    ensures SumTallies(Values(perFile)) == Counts(Concat(Values(codesPerFile)))
  {
    assert Values(perFile) == CountsEach(Values(codesPerFile));
    SumOfCounts(Values(codesPerFile));
  }

  // ------------------------------------------------------------ the report

  function IntLess(a: int, b: int): bool {
    a < b
  }

  lemma IntLessOrder()
    ensures StrictTotalOrder(IntLess)
  {
  }

  /** One line per code: `  <code>: <count>`. */
  function CountLine(code: int, count: int): string {
    "  " + IntToString(code) + ": " + IntToString(count)
  }

  function LinesFor(counts: map<int, int>, ks: seq<int>): seq<string>
    requires forall k :: k in ks ==> k in counts
  {
    seq(|ks|, j requires 0 <= j < |ks| => CountLine(ks[j], counts[ks[j]]))
  }

  /** The code lines of a tally, codes in `sorted` order. */
  ghost function CodeLines(counts: map<int, int>): (r: seq<string>)
    ensures |r| == |counts|
    ensures forall j :: 0 <= j < |r| ==> |r[j]| > 0 && r[j][0] == ' '
  {
    IntLessOrder();
    LinesFor(counts, SortSet(counts.Keys, IntLess))
  }

  const NoCodesLine: string := "  No HttpStatus codes found."

  /** What follows a file's header: its code lines, or a note when it has
      none, then a blank line. */
  ghost function SectionBody(counts: map<int, int>): seq<string> {
    (if |counts| > 0 then CodeLines(counts) else [NoCodesLine]) + [""]
  }

  ghost function FileSection(path: string, counts: map<int, int>): seq<string> {
    [FileHeaderLine(path)] + SectionBody(counts)
  }

  /** The sections of the files, in the dict's order. */
  ghost function FileSections(perFile: Dict<map<int, int>>): seq<string> {
    if perFile == [] then []
    else
      var (path, counts) := perFile[|perFile| - 1];
      FileSections(perFile[..|perFile| - 1]) + FileSection(path, counts)
  }

  const TotalHeader: string := "TOTAL (all files):"

  const NoTotalCodesLine: string := "  No HttpStatus codes found in any file."

  ghost function TotalBody(total: map<int, int>): seq<string> {
    if |total| > 0 then CodeLines(total) else [NoTotalCodesLine]
  }

  ghost function TotalSection(total: map<int, int>): seq<string> {
    [TotalHeader] + TotalBody(total)
  }

  /** The report's lines, before they are joined. */
  ghost function ReportLines(perFile: Dict<map<int, int>>, total: map<int, int>): seq<string> {
    FileSections(perFile) + TotalSection(total)
  }

  /** The text `format_counts_for_display` returns. */
  ghost function Report(perFile: Dict<map<int, int>>, total: map<int, int>): string {
    if perFile == [] then "No log files analyzed.\n" else JoinLines(ReportLines(perFile, total)) + "\n"
  }

  /** The code lines of a tally: one `  <code>: <count>` line per code, the
      codes in strictly ascending order. */
  lemma CodeLinesSorted(counts: map<int, int>) returns (ks: seq<int>)
    ensures forall i, j :: 0 <= i < j < |ks| ==> ks[i] < ks[j]
    ensures forall c :: c in ks <==> c in counts
    ensures CodeLines(counts) == LinesFor(counts, ks)
  {
    IntLessOrder();
    ks := SortSet(counts.Keys, IntLess);
    assert SortedBy(ks, IntLess);
    assert forall i, j :: 0 <= i < j < |ks| ==> ks[i] < ks[j] by {
      forall i, j | 0 <= i < j < |ks| ensures ks[i] < ks[j] {
        assert IntLess(ks[i], ks[j]);
      }
    }
    assert forall c :: c in ks <==> c in counts;
    assert CodeLines(counts) == LinesFor(counts, ks);
  }

  lemma BodiesIndented(counts: map<int, int>)
    ensures Indented(SectionBody(counts)) && Indented(TotalBody(counts))
  {
    CodeLinesIndented(counts);
    var first := if |counts| > 0 then CodeLines(counts) else [NoCodesLine];
    assert Indented([NoCodesLine]) by {
      assert NoCodesLine[0] == ' ';
    }
    assert Indented([""]);
    IndentedConcat(first, [""]);
    assert Indented([NoTotalCodesLine]) by {
      assert NoTotalCodesLine[0] == ' ';
    }
  }

  lemma CodeLinesIndented(counts: map<int, int>)
    ensures Indented(CodeLines(counts))
  {
  }

  lemma FileSectionHeaders(path: string, counts: map<int, int>)
    ensures FileHeaders(FileSection(path, counts)) == [FileHeaderLine(path)]
  {
    BodiesIndented(counts);
    FileHeadersIndented(SectionBody(counts));
    FileHeadersConcat([FileHeaderLine(path)], SectionBody(counts));
    assert FileHeaderLine(path)[..6] == "File: ";
    FileHeadersSingle(FileHeaderLine(path));
  }

  lemma {:induction false} FileSectionsHeaders(perFile: Dict<map<int, int>>)
    ensures FileHeaders(FileSections(perFile)) == HeaderLines(perFile)
  {
    if perFile != [] {
      var init := perFile[..|perFile| - 1];
      var (path, counts) := perFile[|perFile| - 1];
      FileSectionsHeaders(init);
      FileSectionHeaders(path, counts);
      FileHeadersConcat(FileSections(init), FileSection(path, counts));
    }
  }

  /** Files appear in input order, each opened by `File: <basename>`; no
      other line of the report looks like a file header. */
  lemma FilesInInputOrder(perFile: Dict<map<int, int>>, total: map<int, int>)
    ensures FileHeaders(ReportLines(perFile, total)) == HeaderLines(perFile)
  {
    FileSectionsHeaders(perFile);
    BodiesIndented(total);
    FileHeadersIndented(TotalBody(total));
    FileHeadersConcat([TotalHeader], TotalBody(total));
    assert !IsFileHeader(TotalHeader) by {
      assert TotalHeader[..6][0] != "File: "[0];
    }
    FileHeadersSingle(TotalHeader);
    assert FileHeaders(TotalSection(total)) == [];
    FileHeadersConcat(FileSections(perFile), TotalSection(total));
    assert FileHeaders(ReportLines(perFile, total)) == HeaderLines(perFile) + [];
  }

  lemma {:induction false} FileSectionsNoTotal(perFile: Dict<map<int, int>>)
    ensures TotalHeader !in FileSections(perFile)
  {
    if perFile != [] {
      var (path, counts) := perFile[|perFile| - 1];
      FileSectionsNoTotal(perFile[..|perFile| - 1]);
      BodiesIndented(counts);
      IndentedExcludes(SectionBody(counts), TotalHeader);
      assert FileHeaderLine(path)[0] != TotalHeader[0];
    }
  }

  /** A report lists its total exactly once, after the last file section. */
  lemma OneTotalSection(perFile: Dict<map<int, int>>, total: map<int, int>)
    ensures Occurrences(ReportLines(perFile, total), TotalHeader) == 1
    ensures ReportLines(perFile, total)[|FileSections(perFile)|] == TotalHeader
  {
    FileSectionsNoTotal(perFile);
    BodiesIndented(total);
    IndentedExcludes(TotalBody(total), TotalHeader);
    OccursOnceBetween(FileSections(perFile), TotalHeader, TotalBody(total));
  }

  // ------------------------------------------------------------ formatting

  lemma FileSectionsSnoc(perFile: Dict<map<int, int>>, i: nat)
    requires i < |perFile|
    ensures FileSections(perFile[..i + 1]) == FileSections(perFile[..i]) + FileSection(perFile[i].0, perFile[i].1)
  {
    assert perFile[..i + 1][..i] == perFile[..i];
  }

  lemma LinesForSnoc(counts: map<int, int>, ks: seq<int>, j: nat)
    requires j < |ks| && forall k :: k in ks ==> k in counts
    ensures LinesFor(counts, ks[..j + 1]) == LinesFor(counts, ks[..j]) + [CountLine(ks[j], counts[ks[j]])]
  {
    assert ks[..j + 1] == ks[..j] + [ks[j]];
  }

  /** The loop `for code in sorted(counts.keys()): lines.append(...)`. */
  method AppendCodeLines(lines: seq<string>, counts: map<int, int>) returns (out: seq<string>)
    ensures out == lines + CodeLines(counts)
  {
    IntLessOrder();
    var ks := SortElements(counts.Keys, IntLess);
    out := AppendLinesFor(lines, counts, ks);
  }

  /** The body of that loop, over the codes once sorted. */
  method AppendLinesFor(lines: seq<string>, counts: map<int, int>, ks: seq<int>) returns (out: seq<string>)
    requires forall k :: k in ks ==> k in counts
    ensures out == lines + LinesFor(counts, ks)
  {
    out := lines;
    var j := 0;
    while j < |ks|
      invariant j <= |ks|
      invariant out == lines + LinesFor(counts, ks[..j])
    {
      var line := CountLine(ks[j], counts[ks[j]]);
      LinesForSnoc(counts, ks, j);
      assert lines + LinesFor(counts, ks[..j]) + [line] == lines + (LinesFor(counts, ks[..j]) + [line]);
      out := out + [line];
      j := j + 1;
    }
    assert ks[..j] == ks;
  }

  /** The body of the per-file loop: the file's header, its code lines in
      ascending code order (or the "no codes" note), and a blank line. */
  method FormatFileSection(path: string, counts: map<int, int>) returns (section: seq<string>)
    ensures section == FileSection(path, counts)
  {
    section := [FileHeaderLine(path)];
    if |counts| > 0 {
      section := AppendCodeLines(section, counts);
    } else {
      section := section + [NoCodesLine];
    }
    section := section + [""];
    var body := if |counts| > 0 then CodeLines(counts) else [NoCodesLine];
    assert [FileHeaderLine(path)] + body + [""] == [FileHeaderLine(path)] + (body + [""]);
  }

  /** The total's header and its code lines (or the "no codes" note). */
  method FormatTotalSection(total: map<int, int>) returns (section: seq<string>)
    ensures section == TotalSection(total)
  {
    section := [TotalHeader];
    if |total| > 0 {
      section := AppendCodeLines(section, total);
    } else {
      section := section + [NoTotalCodesLine];
    }
  }

  /** `format_counts_for_display`. */
  method FormatCountsForDisplay(perFile: Dict<map<int, int>>, total: map<int, int>) returns (report: string)
    ensures report == Report(perFile, total)
    ensures perFile == [] ==> report == "No log files analyzed.\n"
    ensures |report| > 0 && report[|report| - 1] == '\n'
  {
    if perFile == [] {
      return "No log files analyzed.\n";
    }
    var lines: seq<string> := [];
    var i := 0;
    while i < |perFile|
      invariant i <= |perFile|
      invariant lines == FileSections(perFile[..i])
    {
      var section := FormatFileSection(perFile[i].0, perFile[i].1);
      FileSectionsSnoc(perFile, i);
      lines := lines + section;
      i := i + 1;
    }
    assert perFile[..i] == perFile;
    var totalSection := FormatTotalSection(total);
    lines := lines + totalSection;
    report := JoinLines(lines) + "\n";
  }
}
