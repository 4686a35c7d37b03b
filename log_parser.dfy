/** core/parser.py: the plain-text flavour. Each line yields at most one HTTP
    status code, found by searching it for `HttpStatus:\s*(\d{3})` and kept
    only when it lies in 100..599. */
module LogParser {
  import opened Wrappers
  import opened Text
  import opened Dicts

  /** The literal part of `STATUS_PATTERN`. */
  const Marker: string := "HttpStatus:"

  /** One file as the reader sees it: its lines (as `for line in f` yields
      them, terminators included) and, when decoding fails part-way, how many
      lines were delivered before the `UnicodeDecodeError`. */
  datatype TextFile = TextFile(lines: seq<string>, failsAfter: Option<nat>)

  /** The lines the loop gets to see. */
  function ReadLines(f: TextFile): (r: seq<string>)
    ensures r <= f.lines
  {
    match f.failsAfter
    case Some(k) => if k < |f.lines| then f.lines[..k] else f.lines
    case None => f.lines
  }

  // ------------------------------------------------------------ the pattern

  /** `HttpStatus:\s*(\d{3})` matches at `i` with its `\s*` ending at `k`, so
      that the group is `line[k..k + 3]`. This is what the regular expression
      means, without committing to how `\s*` is matched. */
  ghost predicate MatchWith(line: string, i: nat, k: nat) {
    && i + |Marker| <= k && k + 3 <= |line|
    && line[i..i + |Marker|] == Marker
    && AllSpace(line[i + |Marker|..k])
    && AllDigits(line[k..k + 3])
  }

  /** The match of the whole search: the leftmost one. */
  ghost predicate LeftmostMatch(line: string, i: nat, k: nat) {
    MatchWith(line, i, k) && forall i', k' :: MatchWith(line, i', k') ==> i <= i'
  }

  /** The greedy `\s*`: the end of the whitespace run that starts at `j`. */
  function SpaceRunEnd(line: string, j: nat): (k: nat)
    requires j <= |line|
    ensures j <= k <= |line| && AllSpace(line[j..k])
    ensures k == |line| || !IsSpace(line[k])
    decreases |line| - j
  {
    if j < |line| && IsSpace(line[j]) then
      var k := SpaceRunEnd(line, j + 1);
      assert line[j..k] == [line[j]] + line[j + 1..k];
      k
    else j
  }

  /** Whitespace and digits are disjoint, so a match at `i` can only end its
      `\s*` where the whitespace run ends: the group is unique. */
  lemma MatchGroupUnique(line: string, i: nat, k: nat)
    requires MatchWith(line, i, k)
    ensures k == SpaceRunEnd(line, i + |Marker|)
  {
    var e := SpaceRunEnd(line, i + |Marker|);
    assert forall t :: i + |Marker| <= t < k ==> IsSpace(line[t]) by {
      assert forall t :: i + |Marker| <= t < k ==> line[t] == line[i + |Marker|..k][t - (i + |Marker|)];
    }
    assert forall t :: i + |Marker| <= t < e ==> IsSpace(line[t]) by {
      assert forall t :: i + |Marker| <= t < e ==> line[t] == line[i + |Marker|..e][t - (i + |Marker|)];
    }
    assert IsDigit(line[k]) by {
      assert line[k] == line[k..k + 3][0];
    }
    if k < e {
      assert false;
    } else if e < k {
      assert false;
    }
  }

  /** Tries the pattern at position `i`; gives where the group starts. */
  function TryAt(line: string, i: nat): (r: Option<nat>)
    ensures r.Some? ==> MatchWith(line, i, r.value)
    ensures r.None? ==> forall k :: !MatchWith(line, i, k)
  {
    if i + |Marker| <= |line| && line[i..i + |Marker|] == Marker then
      var k := SpaceRunEnd(line, i + |Marker|);
      if k + 3 <= |line| && AllDigits(line[k..k + 3]) then Some(k)
      else
        assert forall k' :: MatchWith(line, i, k') ==> k' == k by {
          forall k' | MatchWith(line, i, k') ensures k' == k {
            MatchGroupUnique(line, i, k');
          }
        }
        None
    else None
  }

  /** `STATUS_PATTERN.search(line[from:])`: the leftmost match at or after
      `from`, with where its group starts. */
  function Search(line: string, from: nat): (r: Option<(nat, nat)>)
    requires from <= |line|
    ensures r.Some? ==> from <= r.value.0 && MatchWith(line, r.value.0, r.value.1)
    ensures forall i, k :: from <= i && MatchWith(line, i, k) ==> r.Some? && r.value.0 <= i
    decreases |line| - from
  {
    if from == |line| then None
    else
      match TryAt(line, from)
      case Some(k) => Some((from, k))
      case None => Search(line, from + 1)
  }

  /** What one line contributes to `codes`. */
  function LineCode(line: string): Option<int> {
    match Search(line, 0)
    case None => None
    case Some((_, k)) =>
      var code := DigitsValue(line[k..k + 3]);
      if 100 <= code <= 599 then Some(code) else None
  }

  /** A line yields code `c` exactly when `c` is in 100..599 and is the value
      of the three digits captured by the leftmost match of the pattern. So a
      line without a match yields nothing, and an out-of-range leftmost match
      hides any later `HttpStatus:` on the same line. */
  lemma LineCodeSpec(line: string, c: int)
    ensures LineCode(line) == Some(c) <==>
      100 <= c <= 599 && exists i: nat, k: nat :: LeftmostMatch(line, i, k) && DigitsValue(line[k..k + 3]) == c
  {
    if LineCode(line) == Some(c) {
      var i, k := LineCodeFound(line, c);
    } else if 100 <= c <= 599 {
      forall i: nat, k: nat | LeftmostMatch(line, i, k) ensures DigitsValue(line[k..k + 3]) != c {
        if DigitsValue(line[k..k + 3]) == c {
          LeftmostInRange(line, i, k);
        }
      }
    }
  }

  lemma LineCodeFound(line: string, c: int) returns (i: nat, k: nat)
    requires LineCode(line) == Some(c)
    ensures 100 <= c <= 599 && LeftmostMatch(line, i, k) && DigitsValue(line[k..k + 3]) == c
  {
    var r := Search(line, 0);
    i, k := r.value.0, r.value.1;
  }

  lemma LeftmostInRange(line: string, i: nat, k: nat)
    requires LeftmostMatch(line, i, k) && 100 <= DigitsValue(line[k..k + 3]) <= 599
    ensures LineCode(line) == Some(DigitsValue(line[k..k + 3]))
  {
    var r := Search(line, 0);
    assert r.Some? && r.value.0 == i;
    MatchGroupUnique(line, i, k);
    MatchGroupUnique(line, i, r.value.1);
  }

  /** The leftmost match alone decides: when its digits are out of range
      the line yields nothing, whatever follows on the line. */
  lemma LeftmostOutOfRange(line: string, i: nat, k: nat)
    requires LeftmostMatch(line, i, k) && !(100 <= DigitsValue(line[k..k + 3]) <= 599)
    ensures LineCode(line) == None
  {
    var r := Search(line, 0);
    assert r.Some? && r.value.0 == i;
    MatchGroupUnique(line, i, k);
    MatchGroupUnique(line, i, r.value.1);
  }

  /** One space, then three digits: the space run ends at the digits. */
  lemma SpaceThenDigits(line: string, j: nat, digits: string)
    requires j + 4 <= |line| && line[j] == ' ' && line[j + 1..j + 4] == digits && AllDigits(digits)
    ensures SpaceRunEnd(line, j) == j + 1 && AllDigits(line[j + 1..j + 4])
  {
    assert line[j + 1] == digits[0];
  }

  /** Exactly three digits are taken, with no check of what follows them. */
  lemma NoTrailingBoundary()
    ensures LineCode("HttpStatus: 4041") == Some(404)
  {
    var a := "HttpStatus: 4041";
    assert a[0..|Marker|] == Marker;
    assert a[12..15] == "404";
    SpaceThenDigits(a, 11, "404");
    assert TryAt(a, 0) == Some(12);
    assert DigitsValue("404") == 404 by {
      assert "404"[..2] == "40" && "40"[..1] == "4" && "4"[..0] == "";
    }
  }

  /** The pattern is searched for anywhere in the line, and `\s*` takes any
      run of whitespace, tabs included. */
  lemma SearchAnywhere()
    ensures LineCode("x HttpStatus:\t 503\n") == Some(503)
  {
    var b := "x HttpStatus:\t 503\n";
    assert b[2..2 + |Marker|] == Marker;
    assert b[13] == '\t';
    assert b[15] == '5' && b[16] == '0' && b[17] == '3';
    assert b[15..18] == "503";
    SpaceThenDigits(b, 14, "503");
    assert SpaceRunEnd(b, 13) == 15;
    assert TryAt(b, 2) == Some(15);
    assert b[0..|Marker|][0] != Marker[0];
    assert b[1..1 + |Marker|][0] != Marker[0];
    assert Search(b, 1) == Some((2, 15));
    assert DigitsValue("503") == 503 by {
      assert "503"[..2] == "50" && "50"[..1] == "5" && "5"[..0] == "";
    }
  }

  /** `int("099")` is 99, which is out of range. */
  lemma LeadingZeroOutOfRange()
    ensures LineCode("HttpStatus: 099") == None
  {
    var c := "HttpStatus: 099";
    assert c[0..|Marker|] == Marker;
    assert c[12..15] == "099";
    SpaceThenDigits(c, 11, "099");
    assert TryAt(c, 0) == Some(12);
    assert DigitsValue("099") == 99 by {
      assert "099"[..2] == "09" && "09"[..1] == "0" && "0"[..0] == "";
    }
  }

  /** The leftmost match wins even when a later one would be valid. */
  lemma FirstMatchOnly()
    ensures LineCode("HttpStatus: 999 HttpStatus: 200") == None
  {
    var d := "HttpStatus: 999 HttpStatus: 200";
    assert d[0..|Marker|] == Marker;
    assert d[12..15] == "999";
    SpaceThenDigits(d, 11, "999");
    assert TryAt(d, 0) == Some(12);
    assert DigitsValue("999") == 999 by {
      assert "999"[..2] == "99" && "99"[..1] == "9" && "9"[..0] == "";
    }
  }

  // ------------------------------------------------------------ the file

  /** The codes of a run of lines, in line order. */
  function CodesOf(lines: seq<string>): seq<int> {
    if lines == [] then []
    else
      var last := lines[|lines| - 1];
      CodesOf(lines[..|lines| - 1]) + match LineCode(last) case Some(c) => [c] case None => []
  }

  /** Each line contributes at most one code, and every code is in 100..599. */
  lemma {:induction false} CodesOfBounds(lines: seq<string>)
    ensures |CodesOf(lines)| <= |lines|
    ensures forall i :: 0 <= i < |CodesOf(lines)| ==> 100 <= CodesOf(lines)[i] <= 599
  {
    if lines != [] {
      CodesOfBounds(lines[..|lines| - 1]);
      var last := lines[|lines| - 1];
      if LineCode(last).Some? {
        LineCodeSpec(last, LineCode(last).value);
      }
    }
  }

  /** Codes keep the order of their lines: the codes of two runs of lines
      are the codes of the first followed by the codes of the second. */
  lemma {:induction false} CodesOfConcat(a: seq<string>, b: seq<string>)
    ensures CodesOf(a + b) == CodesOf(a) + CodesOf(b)
  {
    if b == [] {
      assert a + b == a;
    } else {
      assert (a + b)[..|a + b| - 1] == a + b[..|b| - 1];
      CodesOfConcat(a, b[..|b| - 1]);
    }
  }

  /** What `parse_log_file(path)` returns. The file system is a parameter: a
      path it does not hold is one `open` fails on with `OSError`. */
  function FileCodes(fs: map<string, TextFile>, path: string): seq<int> {
    if path in fs then CodesOf(ReadLines(fs[path])) else []
  }

  /** A decode error part-way does not lose what was read: the codes returned
      are a prefix of the codes of the whole file. */
  lemma DecodeFailureKeepsPrefix(f: TextFile)
    ensures CodesOf(ReadLines(f)) <= CodesOf(f.lines)
  {
    var r := ReadLines(f);
    assert f.lines == r + f.lines[|r|..];
    CodesOfConcat(r, f.lines[|r|..]);
  }

  /** `parse_log_file`: scans the lines in order, appending the code of each
      line that has one; a failure to open the file or to decode a line ends
      the scan without raising. */
  method ParseLogFile(fs: map<string, TextFile>, path: string) returns (codes: seq<int>)
    ensures codes == FileCodes(fs, path)
    ensures path in fs ==> codes <= CodesOf(fs[path].lines) && |codes| <= |fs[path].lines|
    ensures forall i :: 0 <= i < |codes| ==> 100 <= codes[i] <= 599
  {
    codes := [];
    if path !in fs {
      return;
    }
    codes := ScanLines(fs[path]);
    DecodeFailureKeepsPrefix(fs[path]);
    CodesOfBounds(ReadLines(fs[path]));
  }

  /** The `for line in f` loop, which stops at the first line that cannot be
      decoded. */
  method ScanLines(f: TextFile) returns (codes: seq<int>)
    ensures codes == CodesOf(ReadLines(f))
  {
    codes := [];
    var i := 0;
    while i < |f.lines| && (f.failsAfter.None? || i < f.failsAfter.value)
      invariant i <= |ReadLines(f)|
      invariant codes == CodesOf(f.lines[..i])
    {
      CodesOfSnoc(f.lines, i);
      var line := f.lines[i];
      match LineCode(line) {
        case Some(c) =>
          codes := codes + [c];
        case None =>
      }
      i := i + 1;
    }
    assert f.lines[..i] == ReadLines(f);
  }

  lemma CodesOfSnoc(lines: seq<string>, i: nat)
    requires i < |lines|
    ensures CodesOf(lines[..i + 1]) == CodesOf(lines[..i]) + match LineCode(lines[i]) case Some(c) => [c] case None => []
  {
    assert lines[..i + 1][..i] == lines[..i];
  }

  /** `parse_log_files`: one entry per distinct path, in the order the paths
      were first given, each holding that file's codes. */
  method ParseLogFiles(fs: map<string, TextFile>, paths: seq<string>) returns (result: Dict<seq<int>>)
    ensures IsDict(result) && Keys(result) == Dedup(paths)
    ensures forall p :: p in Keys(result) <==> p in paths
    ensures forall i :: 0 <= i < |result| ==> result[i].1 == FileCodes(fs, result[i].0)
  {
    result := [];
    var n := 0;
    while n < |paths|
      invariant n <= |paths|
      invariant IsDict(result) && Keys(result) == Dedup(paths[..n])
      invariant forall i :: 0 <= i < |result| ==> result[i].1 == FileCodes(fs, result[i].0)
    {
      assert paths[..n + 1][..n] == paths[..n];
      var codes := ParseLogFile(fs, paths[n]);
      result := Put(result, paths[n], codes);
      n := n + 1;
    }
    assert paths[..n] == paths;
  }
}
