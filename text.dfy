/** String helpers with the meaning Python gives them, restricted to ASCII:
    `str.isspace`, `str.strip`, `str.lower`, the decimal digits of `\d` and
    `int(...)`, `f"{n}"`, `os.path.basename` on POSIX paths, `"\n".join`
    and the ordering `<` on `str`. */
module Text {

  /** Python's whitespace test (`str.isspace`, regex `\s`, `str.strip`) on ASCII:
      space, tab, line feed, vertical tab, form feed, carriage return and the
      four separators U+001C..U+001F. */
  predicate IsSpace(c: char) {
    c == ' ' || c == '\t' || c == '\n' || c == '\r' || c == '\U{0B}' || c == '\U{0C}' ||
    ('\U{1C}' <= c <= '\U{1F}')
  }

  predicate AllSpace(s: string) {
    forall i :: 0 <= i < |s| ==> IsSpace(s[i])
  }

  predicate IsDigit(c: char) {
    '0' <= c <= '9'
  }

  predicate AllDigits(s: string) {
    forall i :: 0 <= i < |s| ==> IsDigit(s[i])
  }

  // ---------------------------------------------------------------- strip

  /** `s.lstrip()`. */
  function TrimLeft(s: string): string {
    if |s| > 0 && IsSpace(s[0]) then TrimLeft(s[1..]) else s
  }

  /** `s.rstrip()`. */
  function TrimRight(s: string): string {
    if |s| > 0 && IsSpace(s[|s| - 1]) then TrimRight(s[..|s| - 1]) else s
  }

  /** `lstrip` leaves the longest suffix that does not start with whitespace. */
  lemma {:induction false} TrimLeftSpec(s: string)
    ensures var r := TrimLeft(s);
      |r| <= |s| && r == s[|s| - |r|..] && AllSpace(s[..|s| - |r|]) && (r == [] || !IsSpace(r[0]))
  {
    if |s| > 0 && IsSpace(s[0]) {
      TrimLeftSpec(s[1..]);
    }
  }

  /** `rstrip` leaves the longest prefix that does not end with whitespace. */
  lemma {:induction false} TrimRightSpec(s: string)
    ensures var r := TrimRight(s);
      |r| <= |s| && r == s[..|r|] && AllSpace(s[|r|..]) && (r == [] || !IsSpace(r[|r| - 1]))
  {
    if |s| > 0 && IsSpace(s[|s| - 1]) {
      var init := s[..|s| - 1];
      TrimRightSpec(init);
      var r := TrimRight(init);
      assert s[|r|..] == init[|r|..] + [s[|s| - 1]];
      AllSpaceSnoc(init[|r|..], s[|s| - 1]);
    }
  }

  lemma AllSpaceSnoc(s: string, c: char)
    requires AllSpace(s) && IsSpace(c)
    ensures AllSpace(s + [c])
  {
  }

  predicate IsStripped(s: string) {
    s == [] || (!IsSpace(s[0]) && !IsSpace(s[|s| - 1]))
  }

  /** `s.strip()`. */
  function Strip(s: string): (r: string)
  {
    TrimRight(TrimLeft(s))
  }

  /** `s.strip()` removes exactly the surrounding whitespace: `s` is `r`
      framed by two runs of whitespace, and `r` neither starts nor ends with
      whitespace. */
  lemma StripSpec(s: string)
    ensures var r := Strip(s);
      IsStripped(r) &&
      exists i :: 0 <= i && i + |r| <= |s| && s[i..i + |r|] == r && AllSpace(s[..i]) && AllSpace(s[i + |r|..])
  {
    var i := StripSplit(s);
  }

  /** StripSpec with the position of the kept part given out. */
  lemma StripSplit(s: string) returns (i: nat)
    ensures var r := Strip(s);
      IsStripped(r) && i + |r| <= |s| && s == s[..i] + r + s[i + |r|..] &&
      s[i..i + |r|] == r && AllSpace(s[..i]) && AllSpace(s[i + |r|..])
  {
    var l := TrimLeft(s);
    var r := TrimRight(l);
    TrimLeftSpec(s);
    TrimRightSpec(l);
    i := |s| - |l|;
    Frame(s, i, |r|);
    if r != [] {
      assert r[0] == l[0];
    }
  }

  /** Cutting `s` at `i` and `i + n`. */
  lemma Frame<T>(s: seq<T>, i: nat, n: nat)
    requires i + n <= |s|
    ensures s == s[..i] + s[i..][..n] + s[i + n..]
    ensures s[i..i + n] == s[i..][..n] && s[i + n..] == s[i..][n..]
  {
    assert s[i..] == s[i..][..n] + s[i..][n..];
    assert s == s[..i] + s[i..];
  }

  /** Whitespace framing is undone by `strip`: the converse of StripSpec. */
  lemma {:induction false} StripFramed(a: string, b: string, c: string)
    requires AllSpace(a) && AllSpace(c) && IsStripped(b)
    ensures Strip(a + b + c) == b
  {
    if b == [] {
      assert a + b + c == a + c;
      TrimLeftFramed(a, c, true);
    } else {
      assert (b + c)[0] == b[0];
      assert a + b + c == a + (b + c);
      TrimLeftFramed(a, b + c, false);
      TrimRightFramed(b, c);
    }
  }

  lemma {:induction false} TrimLeftFramed(a: string, t: string, allSpaceT: bool)
    requires AllSpace(a)
    requires allSpaceT <==> AllSpace(t)
    requires t != [] && !allSpaceT ==> !IsSpace(t[0])
    ensures TrimLeft(a + t) == (if allSpaceT then [] else t)
  {
    if a == [] {
      assert a + t == t;
      if allSpaceT && t != [] {
        TrimLeftAllSpace(t);
      } else if allSpaceT {
      }
    } else {
      assert (a + t)[1..] == a[1..] + t;
      TrimLeftFramed(a[1..], t, allSpaceT);
    }
  }

  lemma {:induction false} TrimLeftAllSpace(t: string)
    requires AllSpace(t)
    ensures TrimLeft(t) == []
  {
    if t != [] {
      TrimLeftAllSpace(t[1..]);
    }
  }

  lemma {:induction false} TrimRightFramed(b: string, c: string)
    requires b != [] && !IsSpace(b[|b| - 1]) && AllSpace(c)
    ensures TrimRight(b + c) == b
  {
    if c == [] {
      assert b + c == b;
    } else {
      assert (b + c)[..|b + c| - 1] == b + c[..|c| - 1];
      TrimRightFramed(b, c[..|c| - 1]);
    }
  }

  /** A stripped string is left alone by `strip`, so `strip` is idempotent. */
  lemma StripIdempotent(s: string)
    ensures Strip(Strip(s)) == Strip(s)
  {
    var _ := StripSplit(s);
    var r := Strip(s);
    StripFramed([], r, []);
    assert [] + r + [] == r;
  }

  // ---------------------------------------------------------------- lower

  function LowerChar(c: char): char {
    if 'A' <= c <= 'Z' then (c as int + 32) as char else c
  }

  /** `s.lower()` on ASCII letters; other characters are kept. */
  function Lower(s: string): (r: string)
    ensures |r| == |s|
  {
    seq(|s|, i requires 0 <= i < |s| => LowerChar(s[i]))
  }

  /** `lower` is idempotent and keeps whitespace where it is, so it commutes
      with `strip`. */
  lemma LowerStripCommute(s: string)
    ensures Lower(Lower(s)) == Lower(s)
    ensures Strip(Lower(s)) == Lower(Strip(s))
  {
    LowerIdempotent(s);
    var i := StripSplit(s);
    var r := Strip(s);
    var a, c := s[..i], s[i + |r|..];
    LowerConcat(a, r, c);
    LowerKeepsSpace(a);
    LowerKeepsSpace(c);
    LowerKeepsStripped(r);
    StripFramed(a, Lower(r), c);
  }

  lemma LowerIdempotent(s: string)
    ensures Lower(Lower(s)) == Lower(s)
  {
  }

  lemma LowerConcat(a: string, b: string, c: string)
    ensures Lower(a + b + c) == Lower(a) + Lower(b) + Lower(c)
  {
  }

  lemma LowerKeepsSpace(a: string)
    requires AllSpace(a)
    ensures Lower(a) == a
  {
  }

  lemma LowerKeepsStripped(r: string)
    requires IsStripped(r)
    ensures IsStripped(Lower(r))
  {
  }

  // ---------------------------------------------------------------- digits

  function DigitValue(c: char): nat
    requires IsDigit(c)
  {
    c as int - '0' as int
  }

  function DigitChar(d: nat): (c: char)
    requires d < 10
    ensures IsDigit(c) && DigitValue(c) == d
  {
    ('0' as int + d) as char
  }

  /** `int(s)` for a string of decimal digits. */
  function DigitsValue(s: string): nat
    requires AllDigits(s)
  {
    if s == [] then 0 else DigitsValue(s[..|s| - 1]) * 10 + DigitValue(s[|s| - 1])
  }

  /** `f"{n}"` for a natural number: its shortest decimal representation. */
  function NatToString(n: nat): (r: string)
    ensures |r| > 0 && AllDigits(r)
    ensures |r| > 1 ==> r[0] != '0'
  {
    if n < 10 then [DigitChar(n)] else NatToString(n / 10) + [DigitChar(n % 10)]
  }

  /** `f"{i}"` for any integer. */
  function IntToString(i: int): string {
    if i < 0 then "-" + NatToString(-i) else NatToString(i)
  }

  /** Reading back what `f"{n}"` printed gives `n` ... */
  lemma {:induction false} NatToStringRoundTrip(n: nat)
    ensures DigitsValue(NatToString(n)) == n
  {
    if n >= 10 {
      NatToStringRoundTrip(n / 10);
      var s := NatToString(n);
      assert s[..|s| - 1] == NatToString(n / 10);
    }
  }

  /** ... and every digit string without a leading zero is what `f"{n}"`
      prints for its value. */
  lemma {:induction false} DigitsRoundTrip(s: string)
    requires |s| > 0 && AllDigits(s) && (|s| > 1 ==> s[0] != '0')
    ensures NatToString(DigitsValue(s)) == s
  {
    var n := DigitsValue(s);
    var last := s[|s| - 1];
    if |s| == 1 {
      assert DigitsValue(s[..0]) == 0;
    } else {
      var p := s[..|s| - 1];
      DigitsRoundTrip(p);
      DigitsPositive(p);
      assert n / 10 == DigitsValue(p) && n % 10 == DigitValue(last);
      assert NatToString(n) == p + [last];
    }
  }

  lemma {:induction false} DigitsPositive(s: string)
    requires |s| > 0 && AllDigits(s) && s[0] != '0'
    ensures DigitsValue(s) > 0
  {
    if |s| > 1 {
      DigitsPositive(s[..|s| - 1]);
    }
  }

  // ---------------------------------------------------------------- paths

  /** `os.path.basename(p)` on POSIX: what follows the last `/`. */
  function Basename(p: string): string {
    if p == [] || p[|p| - 1] == '/' then []
    else Basename(p[..|p| - 1]) + [p[|p| - 1]]
  }

  /** The basename is the suffix of the path after its last `/`: it holds no
      `/`, and either it is the whole path or a `/` comes just before it. */
  lemma {:induction false} BasenameSpec(p: string) returns (k: nat)
    ensures k <= |p| && Basename(p) == p[k..]
    ensures '/' !in Basename(p)
    ensures k > 0 ==> p[k - 1] == '/'
  {
    if p == [] || p[|p| - 1] == '/' {
      k := |p|;
    } else {
      var init := p[..|p| - 1];
      k := BasenameSpec(init);
      assert p[k..] == init[k..] + [p[|p| - 1]];
    }
  }

  // ---------------------------------------------------------------- join

  /** `"\n".join(lines)`. */
  function JoinLines(lines: seq<string>): string {
    if lines == [] then ""
    else if |lines| == 1 then lines[0]
    else JoinLines(lines[..|lines| - 1]) + "\n" + lines[|lines| - 1]
  }

  /** Joining lines whose last one is empty yields text that ends with a
      line break. */
  lemma JoinEndsWithEmptyLine(lines: seq<string>)
    requires |lines| >= 2 && lines[|lines| - 1] == ""
    ensures var s := JoinLines(lines); |s| > 0 && s[|s| - 1] == '\n'
  {
  }

  // ---------------------------------------------------------------- order

  /** Python's `a < b` on `str`: lexicographic by code point, a proper prefix first. */
  predicate StrLess(a: string, b: string) {
    if a == [] then b != []
    else if b == [] then false
    else if a[0] != b[0] then a[0] < b[0]
    else StrLess(a[1..], b[1..])
  }

  /** `<` on `str` is a strict total order. */
  lemma {:induction false} StrLessIrreflexive(a: string)
    ensures !StrLess(a, a)
  {
    if a != [] {
      StrLessIrreflexive(a[1..]);
    }
  }

  lemma {:induction false} StrLessTransitive(a: string, b: string, c: string)
    requires StrLess(a, b) && StrLess(b, c)
    ensures StrLess(a, c)
  {
    if a != [] && b != [] && c != [] && a[0] == b[0] && b[0] == c[0] {
      StrLessTransitive(a[1..], b[1..], c[1..]);
    }
  }

  lemma {:induction false} StrLessTotal(a: string, b: string)
    ensures a == b || StrLess(a, b) || StrLess(b, a)
  {
    if a != [] && b != [] && a[0] == b[0] {
      StrLessTotal(a[1..], b[1..]);
      if a[1..] == b[1..] {
        assert a == [a[0]] + a[1..] && b == [b[0]] + b[1..];
      }
    }
  }
}
