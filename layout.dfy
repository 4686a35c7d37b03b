/** The shape shared by both reports: lines collected in a list, files
    opened by a `File: <basename>` line, all other lines either blank or
    indented. */
module Layout {
  import opened Text
  import opened Dicts

  /** The line that opens a file's section. */
  function FileHeaderLine(path: string): string {
    "File: " + Basename(path)
  }

  /** The header lines of the files, in the dict's order. */
  function HeaderLines<V>(perFile: Dict<V>): (r: seq<string>)
    ensures |r| == |perFile| && forall i :: 0 <= i < |perFile| ==> r[i] == FileHeaderLine(perFile[i].0)
  {
    if perFile == [] then [] else HeaderLines(perFile[..|perFile| - 1]) + [FileHeaderLine(perFile[|perFile| - 1].0)]
  }

  /** Every line is blank or starts with a space. */
  predicate Indented(lines: seq<string>) {
    forall j :: 0 <= j < |lines| ==> lines[j] == "" || (|lines[j]| > 0 && lines[j][0] == ' ')
  }

  lemma IndentedConcat(a: seq<string>, b: seq<string>)
    requires Indented(a) && Indented(b)
    ensures Indented(a + b)
  {
    forall j | 0 <= j < |a + b| ensures (a + b)[j] == "" || (|(a + b)[j]| > 0 && (a + b)[j][0] == ' ') {
      if j < |a| {
        assert (a + b)[j] == a[j];
      } else {
        assert (a + b)[j] == b[j - |a|];
      }
    }
  }

  /** An indented block never holds a line that starts with something else. */
  lemma IndentedExcludes(lines: seq<string>, x: string)
    requires Indented(lines) && |x| > 0 && x[0] != ' '
    ensures x !in lines
  {
  }

  /** The lines that open a file section, in the order they appear. */
  predicate IsFileHeader(line: string) {
    |line| >= 6 && line[..6] == "File: "
  }

  function FileHeaders(lines: seq<string>): seq<string> {
    if lines == [] then []
    else FileHeaders(lines[..|lines| - 1]) + if IsFileHeader(lines[|lines| - 1]) then [lines[|lines| - 1]] else []
  }

  lemma {:induction false} FileHeadersConcat(a: seq<string>, b: seq<string>)
    ensures FileHeaders(a + b) == FileHeaders(a) + FileHeaders(b)
  {
    if b == [] {
      assert a + b == a;
    } else {
      assert (a + b)[..|a + b| - 1] == a + b[..|b| - 1];
      FileHeadersConcat(a, b[..|b| - 1]);
    }
  }

  lemma FileHeadersSingle(x: string)
    ensures FileHeaders([x]) == if IsFileHeader(x) then [x] else []
  {
    assert [x][..0] == [];
  }

  /** Code lines, the "no codes" notes and blank lines open no file section. */
  lemma {:induction false} FileHeadersIndented(lines: seq<string>)
    requires Indented(lines)
    ensures FileHeaders(lines) == []
  {
    if lines != [] {
      FileHeadersIndented(lines[..|lines| - 1]);
    }
  }

  /** How often `x` occurs among `lines`. */
  function Occurrences(lines: seq<string>, x: string): nat {
    if lines == [] then 0
    else Occurrences(lines[..|lines| - 1], x) + if lines[|lines| - 1] == x then 1 else 0
  }

  lemma {:induction false} OccurrencesConcat(a: seq<string>, b: seq<string>, x: string)
    ensures Occurrences(a + b, x) == Occurrences(a, x) + Occurrences(b, x)
  {
    if b == [] {
      assert a + b == a;
    } else {
      assert (a + b)[..|a + b| - 1] == a + b[..|b| - 1];
      OccurrencesConcat(a, b[..|b| - 1], x);
    }
  }

  lemma {:induction false} OccurrencesAbsent(lines: seq<string>, x: string)
    requires x !in lines
    ensures Occurrences(lines, x) == 0
  {
    if lines != [] {
      OccurrencesAbsent(lines[..|lines| - 1], x);
    }
  }

  /** A line absent from `a` and `b` occurs once in `a + [x] + b`, right
      after `a`. */
  lemma OccursOnceBetween(a: seq<string>, x: string, b: seq<string>)
    requires x !in a && x !in b
    ensures Occurrences(a + ([x] + b), x) == 1 && (a + ([x] + b))[|a|] == x
  {
    OccurrencesAbsent(a, x);
    OccurrencesAbsent(b, x);
    OccurrencesConcat([x], b, x);
    assert Occurrences([x], x) == 1 by {
      assert [x][..0] == [];
    }
    OccurrencesConcat(a, [x] + b, x);
  }
}
