/** core/api_parser.py: the CSV flavour. Each row of a `;`-separated file
    whose header names a `success` column (in any letter case) becomes an
    entry `(success, msg)` when its `success` cell spells a boolean. */
module ApiParser {
  import opened Wrappers
  import opened Text
  import opened Dicts

  /** `ApiLogEntry`: one row's outcome and its stripped message. */
  datatype ApiLogEntry = ApiLogEntry(success: bool, msg: string)

  // ------------------------------------------------------------ `_to_bool`

  const TrueWords: seq<string> := ["true", "1", "yes", "y"]
  const FalseWords: seq<string> := ["false", "0", "no", "n"]

  /** `value.strip().lower()`. */
  function Normalize(v: string): string {
    Lower(Strip(v))
  }

  /** `_to_bool`: a missing cell, or a word outside both vocabularies, gives
      `None`. */
  function ToBool(value: Option<string>): Option<bool> {
    match value
    case None => None
    case Some(v) =>
      var w := Normalize(v);
      if w in TrueWords then Some(true)
      else if w in FalseWords then Some(false)
      else None
  }

  /** `v` is the word `b` with whitespace `a` before it and `c` after it. */
  predicate Framed(v: string, a: string, b: string, c: string) {
    v == a + b + c && AllSpace(a) && AllSpace(c) && IsStripped(b)
  }

  /** `_to_bool` accepts a value exactly when, once surrounding whitespace is
      set aside, it is one of the words in some letter case. */
  lemma ToBoolSpec(v: string)
    ensures ToBool(Some(v)) == Some(true) <==> exists a, b, c :: Framed(v, a, b, c) && Lower(b) in TrueWords
    ensures ToBool(Some(v)) == Some(false) <==> exists a, b, c :: Framed(v, a, b, c) && Lower(b) in FalseWords
    ensures ToBool(Some(v)) == None <==> forall a, b, c :: Framed(v, a, b, c) ==> Lower(b) !in TrueWords + FalseWords
  {
    var i := StripSplit(v);
    var b := Strip(v);
    assert Framed(v, v[..i], b, v[i + |b|..]);
    forall a', b', c' | Framed(v, a', b', c') ensures b' == b {
      StripFramed(a', b', c');
    }
  }

  /** Case and surrounding whitespace do not matter:
      `_to_bool(v) == _to_bool(v.strip().lower())`. */
  lemma ToBoolNormalized(v: string)
    ensures ToBool(Some(v)) == ToBool(Some(Normalize(v)))
  {
    var s := Strip(v);
    StripIdempotent(v);
    LowerStripCommute(s);
    assert Normalize(Normalize(v)) == Lower(Strip(Lower(s))) == Lower(Lower(Strip(s))) == Normalize(v);
  }

  /** A missing cell is not a boolean. */
  lemma MissingCell()
    ensures ToBool(None) == None
  {
  }

  /** Case and surrounding whitespace do not matter. */
  lemma PaddedTrue()
    ensures ToBool(Some(" TRUE\t")) == Some(true)
  {
    StripFramed(" ", "TRUE", "\t");
    assert " TRUE\t" == " " + "TRUE" + "\t";
    assert Lower("TRUE") == "true";
  }

  /** A capitalised false word. */
  lemma CapitalNo()
    ensures ToBool(Some("No")) == Some(false)
  {
    StripFramed("", "No", "");
    assert "No" == "" + "No" + "";
    assert Lower("No") == "no";
  }

  /** A word in neither vocabulary. */
  lemma UnknownWord()
    ensures ToBool(Some("maybe")) == None
  {
    StripFramed("", "maybe", "");
    assert "maybe" == "" + "maybe" + "";
    assert Lower("maybe") == "maybe";
  }

  // ------------------------------------------------------------ columns

  /** `{h.lower(): h for h in fieldnames}`: a later header whose lower-case
      form repeats an earlier one's takes its place. */
  function HeaderMap(fieldnames: seq<string>): map<string, string> {
    if fieldnames == [] then map[]
    else
      var h := fieldnames[|fieldnames| - 1];
      HeaderMap(fieldnames[..|fieldnames| - 1])[Lower(h) := h]
  }

  /** Every header is reachable by its lower-case form, and every entry maps
      a lower-case form to a header that has it. */
  lemma {:induction false} HeaderMapSpec(fieldnames: seq<string>)
    ensures forall h :: h in fieldnames ==> Lower(h) in HeaderMap(fieldnames)
    ensures forall k :: k in HeaderMap(fieldnames) ==> HeaderMap(fieldnames)[k] in fieldnames && Lower(HeaderMap(fieldnames)[k]) == k
  {
    if fieldnames != [] {
      var init := fieldnames[..|fieldnames| - 1];
      HeaderMapSpec(init);
      assert fieldnames == init + [fieldnames[|fieldnames| - 1]];
    }
  }

  /** The last header with a given lower-case form is the one kept. */
  lemma {:induction false} HeaderMapLastWins(fieldnames: seq<string>, j: nat)
    requires j < |fieldnames|
    requires forall j' :: j < j' < |fieldnames| ==> Lower(fieldnames[j']) != Lower(fieldnames[j])
    ensures Lower(fieldnames[j]) in HeaderMap(fieldnames) && HeaderMap(fieldnames)[Lower(fieldnames[j])] == fieldnames[j]
  {
    if j < |fieldnames| - 1 {
      HeaderMapLastWins(fieldnames[..|fieldnames| - 1], j);
    }
  }

  /** A row as `csv.DictReader` yields it: each header to its cell, `None`
      for a cell missing at the end of a short row. */
  type Row = map<string, Option<string>>

  /** `get_col(row, col_name)`: the cell under the header whose lower-case
      form is `col_name.lower()`, and `""` when there is no such header. */
  function GetCol(headers: map<string, string>, row: Row, colName: string): Option<string> {
    var name := Lower(colName);
    if name in headers && headers[name] != "" then
      var key := headers[name];
      if key in row then row[key] else Some("")
    else Some("")
  }

  /** Column lookup ignores letter case: the one header that spells the
      column in any case is read. */
  lemma GetColFound(fieldnames: seq<string>, row: Row, colName: string, j: nat)
    requires j < |fieldnames| && fieldnames[j] != "" && Lower(fieldnames[j]) == Lower(colName)
    requires forall j' :: j < j' < |fieldnames| ==> Lower(fieldnames[j']) != Lower(colName)
    ensures GetCol(HeaderMap(fieldnames), row, colName) == if fieldnames[j] in row then row[fieldnames[j]] else Some("")
  {
    HeaderMapLastWins(fieldnames, j);
  }

  /** A column no header spells reads as `""`. */
  lemma GetColMissing(fieldnames: seq<string>, row: Row, colName: string)
    requires forall h :: h in fieldnames ==> Lower(h) != Lower(colName)
    ensures GetCol(HeaderMap(fieldnames), row, colName) == Some("")
  {
    HeaderMapSpec(fieldnames);
  }

  // ------------------------------------------------------------ rows

  /** What the loop body does with one row: skip it, emit an entry, or raise
      `AttributeError` from `None.strip()` when a valid `success` comes with
      a missing `msg` cell. */
  datatype RowOutcome = Skip | Emit(entry: ApiLogEntry) | Crash

  /** `_to_bool(get_col(row, "success"))`. */
  function SuccessOf(headers: map<string, string>, row: Row): Option<bool> {
    ToBool(GetCol(headers, row, "success"))
  }

  function ParseRow(headers: map<string, string>, row: Row): RowOutcome {
    match SuccessOf(headers, row)
    case None => Skip
    case Some(success) =>
      match GetCol(headers, row, "msg")
      case None => Crash
      case Some(m) => Emit(ApiLogEntry(success, Strip(m)))
  }

  /** The first row that crashes the loop, if any. */
  function FirstCrash(headers: map<string, string>, rows: seq<Row>): Option<nat> {
    if rows == [] then None
    else if ParseRow(headers, rows[0]).Crash? then Some(0)
    else
      var r := FirstCrash(headers, rows[1..]);
      if r.Some? then Some(r.value + 1) else None
  }

  /** FirstCrash finds the crashing row with the lowest index. */
  lemma {:induction false} FirstCrashSpec(headers: map<string, string>, rows: seq<Row>)
    ensures var r := FirstCrash(headers, rows);
      && (r.Some? ==> r.value < |rows| && ParseRow(headers, rows[r.value]).Crash?)
      && (r.Some? ==> forall j :: 0 <= j < r.value ==> !ParseRow(headers, rows[j]).Crash?)
      && (r.None? <==> forall j :: 0 <= j < |rows| ==> !ParseRow(headers, rows[j]).Crash?)
  {
    if rows != [] && !ParseRow(headers, rows[0]).Crash? {
      FirstCrashSpec(headers, rows[1..]);
      assert forall j :: 1 <= j < |rows| ==> rows[j] == rows[1..][j - 1];
    }
  }

  /** The entries of the emitting rows, in row order. */
  function EntriesOf(headers: map<string, string>, rows: seq<Row>): seq<ApiLogEntry> {
    if rows == [] then []
    else
      var init := EntriesOf(headers, rows[..|rows| - 1]);
      match ParseRow(headers, rows[|rows| - 1])
      case Emit(e) => init + [e]
      case _ => init
  }

  lemma {:induction false} EntriesOfConcat(headers: map<string, string>, a: seq<Row>, b: seq<Row>)
    ensures EntriesOf(headers, a + b) == EntriesOf(headers, a) + EntriesOf(headers, b)
  {
    if b == [] {
      assert a + b == a;
    } else {
      assert (a + b)[..|a + b| - 1] == a + b[..|b| - 1];
      EntriesOfConcat(headers, a, b[..|b| - 1]);
    }
  }

  /** The rows whose `success` cell is recognised. */
  function Recognised(headers: map<string, string>, rows: seq<Row>): set<nat> {
    set j: nat | j < |rows| && SuccessOf(headers, rows[j]).Some?
  }

  lemma RecognisedSnoc(headers: map<string, string>, rows: seq<Row>)
    requires rows != []
    ensures var n := |rows| - 1;
      Recognised(headers, rows) == Recognised(headers, rows[..n]) + if SuccessOf(headers, rows[n]).Some? then {n} else {}
  {
    var n := |rows| - 1;
    forall j: nat | j < n ensures rows[..n][j] == rows[j] {
    }
  }

  /** Unrecognised rows give nothing and every other row exactly one entry. */
  lemma {:induction false} EntriesOfCount(headers: map<string, string>, rows: seq<Row>)
    requires FirstCrash(headers, rows).None?
    ensures |EntriesOf(headers, rows)| == |Recognised(headers, rows)| <= |rows|
  {
    if rows != [] {
      var n := |rows| - 1;
      var init := rows[..n];
      FirstCrashSpec(headers, rows);
      FirstCrashSpec(headers, init);
      assert FirstCrash(headers, init).None? by {
        forall j | 0 <= j < |init| ensures !ParseRow(headers, init[j]).Crash? {
          assert init[j] == rows[j];
        }
      }
      EntriesOfCount(headers, init);
      RecognisedSnoc(headers, rows);
      assert n !in Recognised(headers, init);
    }
  }

  /** Every emitted message has no surrounding whitespace. */
  lemma {:induction false} EntriesOfStripped(headers: map<string, string>, rows: seq<Row>)
    ensures forall e :: e in EntriesOf(headers, rows) ==> IsStripped(e.msg)
  {
    if rows != [] {
      EntriesOfStripped(headers, rows[..|rows| - 1]);
      match ParseRow(headers, rows[|rows| - 1])
      case Emit(e) =>
        var _ := StripSplit(GetCol(headers, rows[|rows| - 1], "msg").value);
      case _ =>
    }
  }

  // ------------------------------------------------------------ files

  /** One CSV file as `csv.DictReader` delivers it: the header row, the data
      rows, and, when decoding or tokenising fails part-way, how many rows
      were delivered before `UnicodeDecodeError` or `csv.Error`. A file whose
      header row itself cannot be read is modelled as an absent one. */
  datatype CsvFile = CsvFile(fieldnames: seq<string>, rows: seq<Row>, failsAfter: Option<nat>)

  /** The rows the loop gets to see. */
  function ReadRows(f: CsvFile): seq<Row> {
    match f.failsAfter
    case Some(k) => if k < |f.rows| then f.rows[..k] else f.rows
    case None => f.rows
  }

  /** How `parse_api_csv_file` ends: with entries, with one of the errors
      `parse_api_csv_files` catches, or with the `AttributeError` it does
      not, raised at a given row. */
  datatype FileOutcome = Parsed(entries: seq<ApiLogEntry>) | ReadError | Crashed(row: nat)

  /** What `parse_api_csv_file(path)` does, over a file system given as a map;
      an absent path is one that `open` refuses. */
  function CsvOutcome(fs: map<string, CsvFile>, path: string): FileOutcome {
    if path !in fs then ReadError
    else
      var f := fs[path];
      if f.fieldnames == [] then Parsed([])
      else
        var headers := HeaderMap(f.fieldnames);
        var rows := ReadRows(f);
        match FirstCrash(headers, rows)
        case Some(j) => Crashed(j)
        case None => if f.failsAfter.Some? then ReadError else Parsed(EntriesOf(headers, rows))
  }

  /** A file without a header row yields no entries. */
  lemma NoHeaderNoEntries(fs: map<string, CsvFile>, path: string)
    requires path in fs && fs[path].fieldnames == []
    ensures CsvOutcome(fs, path) == Parsed([])
  {
  }

  /** A file that parses yields at most one entry per row, each with a
      stripped message. */
  lemma ParsedEntries(fs: map<string, CsvFile>, path: string)
    requires CsvOutcome(fs, path).Parsed?
    ensures forall e :: e in CsvOutcome(fs, path).entries ==> IsStripped(e.msg)
    ensures path in fs ==> |CsvOutcome(fs, path).entries| <= |fs[path].rows|
  {
    if path in fs && fs[path].fieldnames != [] {
      var f := fs[path];
      var headers := HeaderMap(f.fieldnames);
      assert |ReadRows(f)| <= |f.rows|;
      EntriesOfCount(headers, ReadRows(f));
      EntriesOfStripped(headers, ReadRows(f));
    }
  }

  /** `parse_api_csv_file`: the row loop. */
  method ParseApiCsvFile(fs: map<string, CsvFile>, path: string) returns (outcome: FileOutcome)
    ensures outcome == CsvOutcome(fs, path)
  {
    if path !in fs {
      return ReadError;
    }
    var f := fs[path];
    if f.fieldnames == [] {
      return Parsed([]);
    }
    var headers := HeaderMap(f.fieldnames);
    var rows := ReadRows(f);
    var entries: seq<ApiLogEntry> := [];
    var i := 0;
    while i < |rows|
      invariant i <= |rows|
      invariant FirstCrash(headers, rows[..i]).None?
      invariant entries == EntriesOf(headers, rows[..i])
    {
      assert rows[..i + 1][..i] == rows[..i];
      var success := SuccessOf(headers, rows[i]);
      if success.Some? {
        var msg := GetCol(headers, rows[i], "msg");
        if msg.None? {
          FirstCrashAt(headers, rows, i);
          return Crashed(i);
        }
        entries := entries + [ApiLogEntry(success.value, Strip(msg.value))];
      }
      NoCrashExtends(headers, rows, i);
      i := i + 1;
    }
    assert rows[..i] == rows;
    if f.failsAfter.Some? {
      return ReadError;
    }
    return Parsed(entries);
  }

  lemma NoCrashExtends(headers: map<string, string>, rows: seq<Row>, i: nat)
    requires i < |rows| && !ParseRow(headers, rows[i]).Crash?
    requires FirstCrash(headers, rows[..i]).None?
    ensures FirstCrash(headers, rows[..i + 1]).None?
  {
    assert rows[..i + 1] == rows[..i] + [rows[i]];
    NoCrashSnoc(headers, rows[..i], rows[i]);
  }

  lemma {:induction false} NoCrashSnoc(headers: map<string, string>, rows: seq<Row>, row: Row)
    requires FirstCrash(headers, rows).None? && !ParseRow(headers, row).Crash?
    ensures FirstCrash(headers, rows + [row]).None?
  {
    if rows == [] {
      assert (rows + [row])[1..] == [];
    } else {
      assert (rows + [row])[1..] == rows[1..] + [row];
      NoCrashSnoc(headers, rows[1..], row);
    }
  }

  /** When the rows before `i` are crash-free and row `i` crashes, row `i`
      is the first crash. */
  lemma {:induction false} FirstCrashAt(headers: map<string, string>, rows: seq<Row>, i: nat)
    requires i < |rows| && ParseRow(headers, rows[i]).Crash?
    requires FirstCrash(headers, rows[..i]).None?
    ensures FirstCrash(headers, rows) == Some(i)
  {
    if i > 0 {
      assert rows[..i][0] == rows[0];
      assert rows[..i][1..] == rows[1..][..i - 1];
      FirstCrashAt(headers, rows[1..], i - 1);
    }
  }

  /** How `parse_api_csv_files` ends: with the path-to-entries dict, or with
      the `AttributeError` of the first file that raises one. */
  datatype FilesOutcome = Done(result: Dict<seq<ApiLogEntry>>) | Raised(path: string, row: nat)

  /** The value stored for a file that did not raise. */
  function EntriesOrEmpty(o: FileOutcome): seq<ApiLogEntry> {
    if o.Parsed? then o.entries else []
  }

  /** What reading one path gives, as a function of the path. */
  function ReadOutcome(fs: map<string, CsvFile>): string -> FileOutcome {
    path => CsvOutcome(fs, path)
  }

  /** What `parse_api_csv_files` ends with, when reading a path gives
      `read(path)`: each path in turn stores its entries, or `[]` when
      reading it failed, until a path raises. */
  function FilesOutcomeOf(paths: seq<string>, read: string -> FileOutcome): (r: FilesOutcome)
    ensures r.Done? ==> IsDict(r.result) && Keys(r.result) == Dedup(paths)
  {
    if paths == [] then Done([])
    else
      var before, path := FilesOutcomeOf(paths[..|paths| - 1], read), paths[|paths| - 1];
      if before.Raised? then before
      else if read(path).Crashed? then Raised(path, read(path).row)
      else Done(Put(before.result, path, EntriesOrEmpty(read(path))))
  }

  /** The call ends normally exactly when no file raises. */
  lemma FilesDoneIff(paths: seq<string>, read: string -> FileOutcome)
    ensures FilesOutcomeOf(paths, read).Done? <==> forall n :: 0 <= n < |paths| ==> !read(paths[n]).Crashed?
  {
    if FilesOutcomeOf(paths, read).Done? {
      FilesDoneNoCrash(paths, read);
    } else {
      var n := FilesRaisedFirst(paths, read);
    }
  }

  lemma {:induction false} FilesDoneNoCrash(paths: seq<string>, read: string -> FileOutcome)
    requires FilesOutcomeOf(paths, read).Done?
    ensures forall n :: 0 <= n < |paths| ==> !read(paths[n]).Crashed?
  {
    if paths != [] {
      var init := paths[..|paths| - 1];
      FilesDoneNoCrash(init, read);
      forall n | 0 <= n < |init| ensures !read(paths[n]).Crashed? {
        assert paths[n] == init[n];
      }
    }
  }

  /** Each path stores the entries of its file, or `[]` when the file could
      not be read. */
  lemma {:induction false} FilesValues(paths: seq<string>, read: string -> FileOutcome)
    ensures var r := FilesOutcomeOf(paths, read);
      r.Done? ==> forall i :: 0 <= i < |r.result| ==> r.result[i].1 == EntriesOrEmpty(read(r.result[i].0))
  {
    if paths != [] {
      FilesValues(paths[..|paths| - 1], read);
    }
  }

  /** When the call raises, it is with the first path that raises and the
      row that raised. */
  lemma {:induction false} FilesRaisedFirst(paths: seq<string>, read: string -> FileOutcome) returns (n: nat)
    requires FilesOutcomeOf(paths, read).Raised?
    ensures var r := FilesOutcomeOf(paths, read);
      && n < |paths| && paths[n] == r.path && read(paths[n]) == Crashed(r.row)
      && forall m :: 0 <= m < n ==> !read(paths[m]).Crashed?
  {
    var init := paths[..|paths| - 1];
    if FilesOutcomeOf(init, read).Raised? {
      n := FilesRaisedFirst(init, read);
      assert paths[n] == init[n];
      forall m | 0 <= m < n ensures !read(paths[m]).Crashed? {
        assert paths[m] == init[m];
      }
    } else {
      n := |paths| - 1;
      FilesDoneNoCrash(init, read);
      forall m | 0 <= m < n ensures !read(paths[m]).Crashed? {
        assert paths[m] == init[m];
      }
    }
  }

  /** Once a path has raised, the later paths are never read. */
  lemma {:induction false} RaisedStays(paths: seq<string>, read: string -> FileOutcome, k: nat)
    requires k <= |paths| && FilesOutcomeOf(paths[..k], read).Raised?
    ensures FilesOutcomeOf(paths, read) == FilesOutcomeOf(paths[..k], read)
    decreases |paths|
  {
    if k < |paths| {
      var init := paths[..|paths| - 1];
      assert init[..k] == paths[..k];
      RaisedStays(init, read, k);
    } else {
      assert paths[..k] == paths;
    }
  }

  lemma FilesStep(paths: seq<string>, read: string -> FileOutcome, n: nat, result: Dict<seq<ApiLogEntry>>)
    requires n < |paths| && FilesOutcomeOf(paths[..n], read) == Done(result)
    ensures IsDict(result)
    ensures read(paths[n]).Crashed? ==> FilesOutcomeOf(paths, read) == Raised(paths[n], read(paths[n]).row)
    ensures !read(paths[n]).Crashed? ==>
      FilesOutcomeOf(paths[..n + 1], read) == Done(Put(result, paths[n], EntriesOrEmpty(read(paths[n]))))
  {
    assert paths[..n + 1][..n] == paths[..n];
    if read(paths[n]).Crashed? {
      RaisedStays(paths, read, n + 1);
    }
  }

  /** `parse_api_csv_files`: every path is read in turn; a read that fails
      stores `[]`; an `AttributeError` escapes. */
  method ParseApiCsvFiles(fs: map<string, CsvFile>, paths: seq<string>) returns (outcome: FilesOutcome)
    ensures outcome == FilesOutcomeOf(paths, ReadOutcome(fs))
  {
    var result: Dict<seq<ApiLogEntry>> := [];
    var n := 0;
    while n < |paths|
      invariant n <= |paths|
      invariant FilesOutcomeOf(paths[..n], ReadOutcome(fs)) == Done(result)
    {
      var o := ParseApiCsvFile(fs, paths[n]);
      assert o == ReadOutcome(fs)(paths[n]);
      FilesStep(paths, ReadOutcome(fs), n, result);
      if o.Crashed? {
        return Raised(paths[n], o.row);
      }
      result := Put(result, paths[n], EntriesOrEmpty(o));
      n := n + 1;
    }
    assert paths[..n] == paths;
    outcome := Done(result);
  }
}
