/** core/api_analyzer.py: per-file counts of successful and failed calls, a
    breakdown of the failures by message, their sum across files, and the
    report text. */
module ApiAnalyzer {
  import opened Text
  import opened Dicts
  import opened Tally
  import opened Sorting
  import opened Layout
  import opened ApiParser

  /** `ApiAnalysisResult`. Its `false_msgs` dict is a map: the order in which
      its keys were inserted is never observed, since the report sorts them
      and the totals add them up. */
  datatype ApiAnalysisResult = ApiAnalysisResult(trueCount: int, falseCount: int, falseMsgs: map<string, int>)

  // ------------------------------------------------------------ one file

  /** How many entries succeeded. */
  function SuccessCount(entries: seq<ApiLogEntry>): nat {
    if entries == [] then 0
    else SuccessCount(entries[..|entries| - 1]) + if entries[|entries| - 1].success then 1 else 0
  }

  /** The stripped messages of the failed entries, in entry order. */
  function FalseMessages(entries: seq<ApiLogEntry>): seq<string> {
    if entries == [] then []
    else
      var e := entries[|entries| - 1];
      FalseMessages(entries[..|entries| - 1]) + if e.success then [] else [Strip(e.msg)]
  }

  /** What `analyze_api_entries` computes. */
  function Analysis(entries: seq<ApiLogEntry>): ApiAnalysisResult {
    var msgs := FalseMessages(entries);
    ApiAnalysisResult(SuccessCount(entries), |msgs|, Counts(msgs))
  }

  lemma {:induction false} SuccessCountConcat(a: seq<ApiLogEntry>, b: seq<ApiLogEntry>)
    ensures SuccessCount(a + b) == SuccessCount(a) + SuccessCount(b)
  {
    if b == [] {
      assert a + b == a;
    } else {
      assert (a + b)[..|a + b| - 1] == a + b[..|b| - 1];
      SuccessCountConcat(a, b[..|b| - 1]);
    }
  }

  lemma {:induction false} FalseMessagesConcat(a: seq<ApiLogEntry>, b: seq<ApiLogEntry>)
    ensures FalseMessages(a + b) == FalseMessages(a) + FalseMessages(b)
  {
    if b == [] {
      assert a + b == a;
    } else {
      assert (a + b)[..|a + b| - 1] == a + b[..|b| - 1];
      FalseMessagesConcat(a, b[..|b| - 1]);
    }
  }

  /** Every entry is counted once, as a success or as a failure. */
  lemma {:induction false} OutcomesPartition(entries: seq<ApiLogEntry>)
    ensures SuccessCount(entries) + |FalseMessages(entries)| == |entries|
  {
    if entries != [] {
      OutcomesPartition(entries[..|entries| - 1]);
    }
  }

  lemma {:induction false} FalseMessagesStripped(entries: seq<ApiLogEntry>)
    ensures forall m :: m in FalseMessages(entries) ==> IsStripped(m)
  {
    if entries != [] {
      var e := entries[|entries| - 1];
      FalseMessagesStripped(entries[..|entries| - 1]);
      var _ := StripSplit(e.msg);
    }
  }

  /** The counts add up to the number of entries, the message counts add up
      to the failure count, and every message key is stripped. */
  lemma AnalysisSpec(entries: seq<ApiLogEntry>)
    ensures var r := Analysis(entries);
      && r.trueCount + r.falseCount == |entries|
      && Total(r.falseMsgs) == r.falseCount
      && forall m :: m in r.falseMsgs ==> IsStripped(m)
  {
    OutcomesPartition(entries);
    TotalCounts(FalseMessages(entries));
    CountsSpec(FalseMessages(entries));
    FalseMessagesStripped(entries);
  }

  /** A successful entry, wherever it sits, adds no message and changes no
      message count. */
  lemma SuccessLeavesMessages(a: seq<ApiLogEntry>, e: ApiLogEntry, b: seq<ApiLogEntry>)
    requires e.success
    ensures Analysis(a + [e] + b).falseMsgs == Analysis(a + b).falseMsgs
    ensures Analysis(a + [e] + b).falseCount == Analysis(a + b).falseCount
  {
    SuccessAddsNoMessage(a, e, b);
  }

  lemma SuccessAddsNoMessage(a: seq<ApiLogEntry>, e: ApiLogEntry, b: seq<ApiLogEntry>)
    requires e.success
    ensures FalseMessages(a + [e] + b) == FalseMessages(a + b)
  {
    FalseMessagesConcat(a + [e], b);
    FalseMessagesConcat(a, [e]);
    FalseMessagesConcat(a, b);
    assert [e][..0] == [];
    assert FalseMessages([e]) == [];
    assert FalseMessages(a) + [] == FalseMessages(a);
  }

  lemma SuccessSnoc(entries: seq<ApiLogEntry>, i: nat)
    requires i < |entries| && entries[i].success
    ensures SuccessCount(entries[..i + 1]) == SuccessCount(entries[..i]) + 1
    ensures FalseMessages(entries[..i + 1]) == FalseMessages(entries[..i])
  {
    assert entries[..i + 1][..i] == entries[..i];
    assert FalseMessages(entries[..i]) + [] == FalseMessages(entries[..i]);
  }

  lemma FailureSnoc(entries: seq<ApiLogEntry>, i: nat)
    requires i < |entries| && !entries[i].success
    ensures SuccessCount(entries[..i + 1]) == SuccessCount(entries[..i])
    ensures FalseMessages(entries[..i + 1]) == FalseMessages(entries[..i]) + [Strip(entries[i].msg)]
  {
    assert entries[..i + 1][..i] == entries[..i];
  }

  /** `analyze_api_entries`. */
  method AnalyzeApiEntries(entries: seq<ApiLogEntry>) returns (r: ApiAnalysisResult)
    ensures r == Analysis(entries)
    ensures r.trueCount + r.falseCount == |entries|
    ensures Total(r.falseMsgs) == r.falseCount
  {
    var trueCount, falseCount, falseMsgs := CountOutcomes(entries);
    r := ApiAnalysisResult(trueCount, falseCount, falseMsgs);
    AnalysisSpec(entries);
  }

  /** The loop of `analyze_api_entries`. */
  method CountOutcomes(entries: seq<ApiLogEntry>) returns (trueCount: int, falseCount: int, falseMsgs: map<string, int>)
    ensures trueCount == SuccessCount(entries)
    ensures falseCount == |FalseMessages(entries)|
    ensures falseMsgs == Counts(FalseMessages(entries))
  {
    trueCount, falseCount := 0, 0;
    falseMsgs := map[];
    var i := 0;
    ghost var msgs: seq<string> := [];
    while i < |entries|
      invariant i <= |entries|
      invariant msgs == FalseMessages(entries[..i])
      invariant trueCount == SuccessCount(entries[..i])
      invariant falseCount == |msgs|
      invariant falseMsgs == Counts(msgs)
    {
      var e := entries[i];
      if e.success {
        SuccessSnoc(entries, i);
        trueCount := trueCount + 1;
      } else {
        FailureSnoc(entries, i);
        falseCount := falseCount + 1;
        var msgKey := Strip(e.msg);
        CountsBump(falseMsgs, msgs, msgKey);
        falseMsgs := falseMsgs[msgKey := Get0(falseMsgs, msgKey) + 1];
        msgs := msgs + [msgKey];
      }
      i := i + 1;
    }
    assert entries[..i] == entries;
  }

  // ------------------------------------------------------------ many files

  /** `analyze_api_files`: the same paths in the same order, each with the
      analysis of its entries. This is the definition; its meaning together
      with the totals is proved in `AnalyzeThenTotal`. */
  function AnalyzeApiFiles(perFileEntries: Dict<seq<ApiLogEntry>>): (r: Dict<ApiAnalysisResult>)
    ensures Keys(r) == Keys(perFileEntries)
    ensures IsDict(perFileEntries) ==> IsDict(r)
    ensures forall i :: 0 <= i < |r| ==> r[i].1 == Analysis(perFileEntries[i].1)
  {
    seq(|perFileEntries|, i requires 0 <= i < |perFileEntries| => (perFileEntries[i].0, Analysis(perFileEntries[i].1)))
  }

  /** The totals over several results, in order. */
  function TotalOf(rs: seq<ApiAnalysisResult>): ApiAnalysisResult {
    if rs == [] then ApiAnalysisResult(0, 0, map[])
    else
      var t, r := TotalOf(rs[..|rs| - 1]), rs[|rs| - 1];
      ApiAnalysisResult(t.trueCount + r.trueCount, t.falseCount + r.falseCount, AddCounts(t.falseMsgs, r.falseMsgs))
  }

  /** The message tallies of several results. */
  function MessageTallies(rs: seq<ApiAnalysisResult>): seq<map<string, int>>
  {
    seq(|rs|, i requires 0 <= i < |rs| => rs[i].falseMsgs)
  }

  /** The total's message counts are the per-file message counts added up:
      each message's count is its sum over the files, absent counting 0. */
  lemma {:induction false} TotalMessages(rs: seq<ApiAnalysisResult>)
    ensures TotalOf(rs).falseMsgs == SumTallies(MessageTallies(rs))
  {
    if rs != [] {
      TotalMessages(rs[..|rs| - 1]);
      assert MessageTallies(rs)[..|rs| - 1] == MessageTallies(rs[..|rs| - 1]);
    }
  }

  /** If each file's message counts add up to its failure count, so do the
      totals'. */
  lemma {:induction false} TotalConservesFailures(rs: seq<ApiAnalysisResult>)
    requires forall i :: 0 <= i < |rs| ==> Total(rs[i].falseMsgs) == rs[i].falseCount
    ensures Total(TotalOf(rs).falseMsgs) == TotalOf(rs).falseCount
  {
    if rs != [] {
      var init := rs[..|rs| - 1];
      TotalConservesFailures(init);
      TotalAddCounts(TotalOf(init).falseMsgs, rs[|rs| - 1].falseMsgs);
    }
  }

  function Analyses(es: seq<seq<ApiLogEntry>>): seq<ApiAnalysisResult>
  {
    seq(|es|, i requires 0 <= i < |es| => Analysis(es[i]))
  }

  /** Summing the files' analyses gives the analysis of all their entries
      taken together. */
  lemma TotalIsAnalysisOfAll(es: seq<seq<ApiLogEntry>>)
    ensures TotalOf(Analyses(es)) == Analysis(Concat(es))
  {
    TotalSuccesses(es);
    TotalFailures(es);
  }

  lemma {:induction false} TotalSuccesses(es: seq<seq<ApiLogEntry>>)
    ensures TotalOf(Analyses(es)).trueCount == SuccessCount(Concat(es))
  {
    if es != [] {
      var init, last := es[..|es| - 1], es[|es| - 1];
      TotalSuccesses(init);
      assert Analyses(es)[..|es| - 1] == Analyses(init);
      SuccessCountConcat(Concat(init), last);
    }
  }

  lemma {:induction false} TotalFailures(es: seq<seq<ApiLogEntry>>)
    ensures TotalOf(Analyses(es)).falseCount == |FalseMessages(Concat(es))|
    ensures TotalOf(Analyses(es)).falseMsgs == Counts(FalseMessages(Concat(es)))
  {
    if es != [] {
      var init, last := es[..|es| - 1], es[|es| - 1];
      TotalFailures(init);
      assert Analyses(es)[..|es| - 1] == Analyses(init);
      FalseMessagesConcat(Concat(init), last);
      CountsConcat(FalseMessages(Concat(init)), FalseMessages(last));
    }
  }

  /** The totals of `analyze_api_files` are the analysis of every entry of
      every file. */
  lemma AnalyzeThenTotal(perFileEntries: Dict<seq<ApiLogEntry>>)
    ensures TotalOf(Values(AnalyzeApiFiles(perFileEntries))) == Analysis(Concat(Values(perFileEntries)))
  {
    assert Values(AnalyzeApiFiles(perFileEntries)) == Analyses(Values(perFileEntries));
    TotalIsAnalysisOfAll(Values(perFileEntries));
  }

  /** The inner loop `for msg, cnt in res.false_msgs.items(): ...`, which
      adds one tally into another. The order of the items does not matter. */
  method AddInto(acc: map<string, int>, m: map<string, int>) returns (r: map<string, int>)
    ensures r == AddCounts(acc, m)
  {
    r := acc;
    var rest := m.Keys;
    assert m - rest == map[];
    AddNothing(acc, m - rest);
    while rest != {}
      invariant rest <= m.Keys
      invariant r == AddCounts(acc, m - rest)
      decreases |rest|
    {
      var msg :| msg in rest;
      AddIntoStep(acc, m, rest, msg);
      r := r[msg := Get0(r, msg) + m[msg]];
      rest := rest - {msg};
    }
    assert m - rest == m;
  }

  lemma AddIntoStep(acc: map<string, int>, m: map<string, int>, rest: set<string>, msg: string)
    requires msg in rest && rest <= m.Keys
    ensures AddCounts(acc, m - (rest - {msg}))
      == AddCounts(acc, m - rest)[msg := Get0(AddCounts(acc, m - rest), msg) + m[msg]]
  {
    var b := m - (rest - {msg});
    assert b - {msg} == m - rest;
    AddOneMore(acc, b, msg);
  }

  /** `aggregate_api_totals`. */
  method AggregateApiTotals(perFileResults: Dict<ApiAnalysisResult>) returns (totals: ApiAnalysisResult)
    ensures totals == TotalOf(Values(perFileResults))
    ensures forall m :: Get0(totals.falseMsgs, m) == ColumnSum(MessageTallies(Values(perFileResults)), m)
  {
    var totalTrue, totalFalse := 0, 0;
    var totalFalseMsgs: map<string, int> := map[];
    var i := 0;
    while i < |perFileResults|
      invariant i <= |perFileResults|
      invariant ApiAnalysisResult(totalTrue, totalFalse, totalFalseMsgs) == TotalOf(Values(perFileResults)[..i])
    {
      assert Values(perFileResults)[..i + 1][..i] == Values(perFileResults)[..i];
      var res := perFileResults[i].1;
      totalTrue := totalTrue + res.trueCount;
      totalFalse := totalFalse + res.falseCount;
      totalFalseMsgs := AddInto(totalFalseMsgs, res.falseMsgs);
      i := i + 1;
    }
    assert Values(perFileResults)[..i] == Values(perFileResults);
    totals := ApiAnalysisResult(totalTrue, totalFalse, totalFalseMsgs);
    TotalMessages(Values(perFileResults));
  }

  // ------------------------------------------------------------ the report

  /** The breakdown order, `key=lambda x: (-x[1], x[0])`: higher counts
      first, equal counts by message. */
  predicate MsgLess(a: (string, int), b: (string, int)) {
    a.1 > b.1 || (a.1 == b.1 && StrLess(a.0, b.0))
  }

  lemma MsgLessOrder()
    ensures StrictTotalOrder(MsgLess)
  {
    forall a: (string, int) ensures !MsgLess(a, a) {
      StrLessIrreflexive(a.0);
    }
    forall a: (string, int), b: (string, int), c: (string, int) | MsgLess(a, b) && MsgLess(b, c)
      ensures MsgLess(a, c)
    {
      if a.1 == b.1 && b.1 == c.1 {
        StrLessTransitive(a.0, b.0, c.0);
      }
    }
    forall a: (string, int), b: (string, int) ensures a == b || MsgLess(a, b) || MsgLess(b, a) {
      StrLessTotal(a.0, b.0);
    }
  }

  /** `res.false_msgs.items()`. */
  function Items(m: map<string, int>): set<(string, int)> {
    set k | k in m :: (k, m[k])
  }

  /** One breakdown line: the message in double quotes, or `(no msg)` for
      the empty one, then an em dash, the count, and `time` or `times`. */
  function BreakdownLine(msg: string, count: int): string {
    "      " + (if msg == "" then "(no msg)" else "\"" + msg + "\"") +
    " — " + IntToString(count) + " " + (if count == 1 then "time" else "times")
  }

  /** A breakdown line is indented by six spaces. The empty message is
      shown as `(no msg)` and any other in double quotes. The line ends in
      ` time` when the count is 1 and in ` times` otherwise. */
  lemma BreakdownLineForm(msg: string, count: int)
    ensures var line := BreakdownLine(msg, count);
      && |line| >= 8 + |msg| + 6
      && line[..6] == "      "
      && (msg == "" ==> line[6..14] == "(no msg)")
      && (msg != "" ==> line[6..8 + |msg|] == "\"" + msg + "\"")
      && (count == 1 ==> line[|line| - 5..] == " time")
      && (count != 1 ==> line[|line| - 6..] == " times")
  {
    BreakdownLineMessage(msg, count);
    BreakdownLineWord(msg, count);
  }

  /** The start of a breakdown line: the indent, then how the message is shown. */
  lemma BreakdownLineMessage(msg: string, count: int)
    ensures var line := BreakdownLine(msg, count);
      && |line| >= 8 + |msg|
      && line[..6] == "      "
      && (msg == "" ==> line[6..14] == "(no msg)")
      && (msg != "" ==> line[6..8 + |msg|] == "\"" + msg + "\"")
  {
    var shown := if msg == "" then "(no msg)" else "\"" + msg + "\"";
    var head := "      " + shown;
    var line := BreakdownLine(msg, count);
    assert line == head + (" — " + IntToString(count) + " " + (if count == 1 then "time" else "times"));
    assert line[..|head|] == head;
    assert head[..6] == "      " && head[6..] == shown;
  }

  /** The end of a breakdown line: `time` for a count of 1, `times` otherwise. */
  lemma BreakdownLineWord(msg: string, count: int)
    ensures var line := BreakdownLine(msg, count);
      && |line| >= 8 + |msg| + 6
      && (count == 1 ==> line[|line| - 5..] == " time")
      && (count != 1 ==> line[|line| - 6..] == " times")
  {
    var word := if count == 1 then "time" else "times";
    var pre := "      " + (if msg == "" then "(no msg)" else "\"" + msg + "\"") + " — " + IntToString(count);
    var line := BreakdownLine(msg, count);
    assert line == pre + (" " + word);
    assert line[|pre|..] == " " + word;
  }

  function BreakdownLines(items: seq<(string, int)>): seq<string>
  {
    seq(|items|, j requires 0 <= j < |items| => BreakdownLine(items[j].0, items[j].1))
  }

  /** The breakdown of a message tally, in `sorted` order. */
  ghost function Breakdown(m: map<string, int>): (r: seq<string>)
    ensures |r| == |m|
  {
    MsgLessOrder();
    assert |Items(m)| == |m| by {
      ItemsSize(m);
    }
    BreakdownLines(SortSet(Items(m), MsgLess))
  }

  lemma {:induction false} ItemsSize(m: map<string, int>)
    ensures |Items(m)| == |m|
    decreases |m|
  {
    if m != map[] {
      var k :| k in m;
      var rest := m - {k};
      ItemsSize(rest);
      forall p | p in Items(m) ensures p in Items(rest) + {(k, m[k])} {
        var j :| j in m && p == (j, m[j]);
        if j != k {
          assert j in rest;
        }
      }
      assert Items(m) == Items(rest) + {(k, m[k])};
      assert (k, m[k]) !in Items(rest);
    }
  }

  /** The breakdown lists each message of the tally once, with its count,
      by count descending and then by message ascending. */
  lemma BreakdownSorted(m: map<string, int>) returns (items: seq<(string, int)>)
    ensures forall i, j :: 0 <= i < j < |items| ==>
      items[i].1 > items[j].1 || (items[i].1 == items[j].1 && StrLess(items[i].0, items[j].0))
    ensures forall msg, c :: (msg, c) in items <==> msg in m && m[msg] == c
    ensures Breakdown(m) == BreakdownLines(items)
  {
    MsgLessOrder();
    items := SortSet(Items(m), MsgLess);
    assert SortedBy(items, MsgLess);
    forall i, j | 0 <= i < j < |items|
      ensures items[i].1 > items[j].1 || (items[i].1 == items[j].1 && StrLess(items[i].0, items[j].0))
    {
      assert MsgLess(items[i], items[j]);
    }
    forall msg, c ensures (msg, c) in items <==> msg in m && m[msg] == c {
      assert (msg, c) in items <==> (msg, c) in Items(m);
    }
  }

  const SuccessTrueLabel: string := "  Success True: "
  const SuccessFalseLabel: string := "  Success False: "

  /** The lines shown for one result: the two counts, then the breakdown
      when there were failures. */
  ghost function ResultLines(res: ApiAnalysisResult): seq<string> {
    [SuccessTrueLabel + IntToString(res.trueCount), SuccessFalseLabel + IntToString(res.falseCount)]
    + (if res.falseCount > 0 then Breakdown(res.falseMsgs) else [])
  }

  ghost function ApiFileSection(path: string, res: ApiAnalysisResult): seq<string> {
    [FileHeaderLine(path)] + (ResultLines(res) + [""])
  }

  ghost function ApiFileSections(perFile: Dict<ApiAnalysisResult>): seq<string> {
    if perFile == [] then []
    else ApiFileSections(perFile[..|perFile| - 1]) + ApiFileSection(perFile[|perFile| - 1].0, perFile[|perFile| - 1].1)
  }

  const ApiTotalHeader: string := "TOTAL (across all files):"

  ghost function ApiTotalSection(totals: ApiAnalysisResult): seq<string> {
    [ApiTotalHeader] + (ResultLines(totals) + [""])
  }

  ghost function ApiReportLines(perFile: Dict<ApiAnalysisResult>, totals: ApiAnalysisResult): seq<string> {
    ApiFileSections(perFile) + ApiTotalSection(totals)
  }

  /** The text `format_api_results_for_display` returns. */
  ghost function ApiReport(perFile: Dict<ApiAnalysisResult>, totals: ApiAnalysisResult): string {
    if perFile == [] then "No API CSV files analyzed.\n" else JoinLines(ApiReportLines(perFile, totals))
  }

  lemma ResultLinesIndented(res: ApiAnalysisResult)
    ensures Indented(ResultLines(res) + [""])
  {
    var head := [SuccessTrueLabel + IntToString(res.trueCount), SuccessFalseLabel + IntToString(res.falseCount)];
    assert Indented(head) by {
      assert head[0][0] == ' ' && head[1][0] == ' ';
    }
    var breakdown := if res.falseCount > 0 then Breakdown(res.falseMsgs) else [];
    BreakdownLinesIndented(SortSet(Items(res.falseMsgs), MsgLess));
    assert Indented(breakdown);
    IndentedConcat(head, breakdown);
    assert Indented([""]);
    IndentedConcat(head + breakdown, [""]);
  }

  lemma BreakdownLinesIndented(items: seq<(string, int)>)
    ensures Indented(BreakdownLines(items))
  {
    forall j | 0 <= j < |items| ensures BreakdownLines(items)[j][0] == ' ' {
      BreakdownLineForm(items[j].0, items[j].1);
    }
  }

  lemma ApiFileSectionsSnoc(perFile: Dict<ApiAnalysisResult>, i: nat)
    requires i < |perFile|
    ensures ApiFileSections(perFile[..i + 1]) == ApiFileSections(perFile[..i]) + ApiFileSection(perFile[i].0, perFile[i].1)
  {
    assert perFile[..i + 1][..i] == perFile[..i];
  }

  lemma ApiFileSectionHeaders(path: string, res: ApiAnalysisResult)
    ensures FileHeaders(ApiFileSection(path, res)) == [FileHeaderLine(path)]
  {
    ResultLinesIndented(res);
    FileHeadersIndented(ResultLines(res) + [""]);
    FileHeadersConcat([FileHeaderLine(path)], ResultLines(res) + [""]);
    assert FileHeaderLine(path)[..6] == "File: ";
    FileHeadersSingle(FileHeaderLine(path));
  }

  lemma {:induction false} ApiFileSectionsHeaders(perFile: Dict<ApiAnalysisResult>)
    ensures FileHeaders(ApiFileSections(perFile)) == HeaderLines(perFile)
  {
    if perFile != [] {
      var init := perFile[..|perFile| - 1];
      var (path, res) := perFile[|perFile| - 1];
      ApiFileSectionsHeaders(init);
      ApiFileSectionHeaders(path, res);
      FileHeadersConcat(ApiFileSections(init), ApiFileSection(path, res));
    }
  }

  /** Files appear in input order, each opened by `File: <basename>`; no
      other line of the report looks like a file header. */
  lemma ApiFilesInInputOrder(perFile: Dict<ApiAnalysisResult>, totals: ApiAnalysisResult)
    ensures FileHeaders(ApiReportLines(perFile, totals)) == HeaderLines(perFile)
  {
    ApiFileSectionsHeaders(perFile);
    ResultLinesIndented(totals);
    FileHeadersIndented(ResultLines(totals) + [""]);
    FileHeadersConcat([ApiTotalHeader], ResultLines(totals) + [""]);
    assert !IsFileHeader(ApiTotalHeader) by {
      assert ApiTotalHeader[..6][0] != "File: "[0];
    }
    FileHeadersSingle(ApiTotalHeader);
    FileHeadersConcat(ApiFileSections(perFile), ApiTotalSection(totals));
    assert FileHeaders(ApiReportLines(perFile, totals)) == HeaderLines(perFile) + [];
  }

  lemma {:induction false} ApiFileSectionsNoTotal(perFile: Dict<ApiAnalysisResult>)
    ensures ApiTotalHeader !in ApiFileSections(perFile)
  {
    if perFile != [] {
      var (path, res) := perFile[|perFile| - 1];
      ApiFileSectionsNoTotal(perFile[..|perFile| - 1]);
      ResultLinesIndented(res);
      IndentedExcludes(ResultLines(res) + [""], ApiTotalHeader);
      assert FileHeaderLine(path)[0] != ApiTotalHeader[0];
    }
  }

  /** A report lists the totals exactly once, after the last file section. */
  lemma ApiOneTotalSection(perFile: Dict<ApiAnalysisResult>, totals: ApiAnalysisResult)
    ensures Occurrences(ApiReportLines(perFile, totals), ApiTotalHeader) == 1
    ensures ApiReportLines(perFile, totals)[|ApiFileSections(perFile)|] == ApiTotalHeader
  {
    ApiFileSectionsNoTotal(perFile);
    ResultLinesIndented(totals);
    IndentedExcludes(ResultLines(totals) + [""], ApiTotalHeader);
    OccursOnceBetween(ApiFileSections(perFile), ApiTotalHeader, ResultLines(totals) + [""]);
  }

  // ------------------------------------------------------------ formatting

  /** `for msg, count in sorted(items, key=...): lines.append(...)`. */
  method AppendBreakdown(lines: seq<string>, m: map<string, int>) returns (out: seq<string>)
    ensures out == lines + Breakdown(m)
  {
    MsgLessOrder();
    var items := SortElements(Items(m), MsgLess);
    out := AppendBreakdownLines(lines, items);
  }

  /** The body of that loop, over the items once sorted. */
  method AppendBreakdownLines(lines: seq<string>, items: seq<(string, int)>) returns (out: seq<string>)
    ensures out == lines + BreakdownLines(items)
  {
    out := lines;
    var j := 0;
    while j < |items|
      invariant j <= |items|
      invariant out == lines + BreakdownLines(items[..j])
    {
      var line := BreakdownLine(items[j].0, items[j].1);
      BreakdownLinesSnoc(items, j);
      assert lines + BreakdownLines(items[..j]) + [line] == lines + (BreakdownLines(items[..j]) + [line]);
      out := out + [line];
      j := j + 1;
    }
    assert items[..j] == items;
  }

  lemma BreakdownLinesSnoc(items: seq<(string, int)>, j: nat)
    requires j < |items|
    ensures BreakdownLines(items[..j + 1]) == BreakdownLines(items[..j]) + [BreakdownLine(items[j].0, items[j].1)]
  {
    assert items[..j + 1] == items[..j] + [items[j]];
  }

  /** The count lines of one result and, when it has failures, its
      breakdown. */
  method FormatResultLines(res: ApiAnalysisResult) returns (ls: seq<string>)
    ensures ls == ResultLines(res)
  {
    ls := [SuccessTrueLabel + IntToString(res.trueCount), SuccessFalseLabel + IntToString(res.falseCount)];
    if res.falseCount > 0 {
      ls := AppendBreakdown(ls, res.falseMsgs);
    } else {
      assert ls + [] == ls;
    }
  }

  /** The body of the per-file loop. */
  method FormatApiFileSection(path: string, res: ApiAnalysisResult) returns (section: seq<string>)
    ensures section == ApiFileSection(path, res)
  {
    var ls := FormatResultLines(res);
    section := [FileHeaderLine(path)] + ls + [""];
    assert [FileHeaderLine(path)] + ls + [""] == [FileHeaderLine(path)] + (ls + [""]);
  }

  method FormatApiTotalSection(totals: ApiAnalysisResult) returns (section: seq<string>)
    ensures section == ApiTotalSection(totals)
  {
    var ls := FormatResultLines(totals);
    section := [ApiTotalHeader] + ls + [""];
    assert [ApiTotalHeader] + ls + [""] == [ApiTotalHeader] + (ls + [""]);
  }

  /** `format_api_results_for_display`. */
  method FormatApiResultsForDisplay(perFileResults: Dict<ApiAnalysisResult>, totals: ApiAnalysisResult)
    returns (report: string)
    ensures report == ApiReport(perFileResults, totals)
    ensures perFileResults == [] ==> report == "No API CSV files analyzed.\n"
    ensures |report| > 0 && report[|report| - 1] == '\n'
  {
    if perFileResults == [] {
      return "No API CSV files analyzed.\n";
    }
    var lines: seq<string> := [];
    var i := 0;
    while i < |perFileResults|
      invariant i <= |perFileResults|
      invariant lines == ApiFileSections(perFileResults[..i])
    {
      var section := FormatApiFileSection(perFileResults[i].0, perFileResults[i].1);
      ApiFileSectionsSnoc(perFileResults, i);
      lines := lines + section;
      i := i + 1;
    }
    assert perFileResults[..i] == perFileResults;
    var totalSection := FormatApiTotalSection(totals);
    lines := lines + totalSection;
    report := JoinLines(lines);
    JoinEndsWithEmptyLine(lines);
  }
}
