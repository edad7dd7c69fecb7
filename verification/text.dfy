/**
 * The pieces of Go's `strings`, `bytes` and `fmt` packages that the modelled
 * code relies on. A Go string is a sequence of bytes; here it is a Dafny
 * `string` in which every character stands for one byte, so lengths, slices,
 * splits and searches count bytes exactly as Go does.
 */
module Text {

  predicate NoNewline(s: string) {
    forall i :: 0 <= i < |s| ==> s[i] != '\n'
  }

  predicate AllNoNewline(ls: seq<string>) {
    forall i :: 0 <= i < |ls| ==> NoNewline(ls[i])
  }

  /** The number of newlines in `s`. */
  function Newlines(s: string): nat
    decreases |s|
  {
    if s == [] then 0 else (if s[0] == '\n' then 1 else 0) + Newlines(s[1..])
  }

  /** `strings.Split(s, "\n")`: the pieces between newlines, always at least one. */
  function Split(s: string): (r: seq<string>)
    ensures |r| >= 1
    ensures AllNoNewline(r)
    decreases |s|
  {
    if s == [] then [""]
    else
      var rest := Split(s[1..]);
      if s[0] == '\n' then [""] + rest
      else [[s[0]] + rest[0]] + rest[1..]
  }

  /** A split has one more piece than the text has newlines. */
  lemma {:induction false} SplitPieces(s: string)
    ensures |Split(s)| == Newlines(s) + 1
    decreases |s|
  {
    if s != [] {
      SplitPieces(s[1..]);
    }
  }

  /** `strings.Join(ls, "\n")`, which is also what a writer produces when it
      puts a newline between consecutive lines and none after the last. */
  function JoinLines(ls: seq<string>): string
  {
    if |ls| == 0 then ""
    else if |ls| == 1 then ls[0]
    else ls[0] + "\n" + JoinLines(ls[1..])
  }

  /** What a writer holds after writing `ls` with a newline after every line:
      the state just before the next line is written. */
  function Separated(ls: seq<string>): string
  {
    if ls == [] then "" else JoinLines(ls) + "\n"
  }

  lemma {:induction false} JoinLinesSnoc(ls: seq<string>, x: string)
    requires |ls| >= 1
    ensures JoinLines(ls + [x]) == JoinLines(ls) + "\n" + x
    decreases |ls|
  {
    if |ls| == 1 {
      assert ls + [x] == [ls[0], x];
      assert (ls + [x])[1..] == [x];
    } else {
      assert (ls + [x])[1..] == ls[1..] + [x];
      JoinLinesSnoc(ls[1..], x);
    }
  }

  /** Writing one more line after `Separated(ls)` gives the joined text. */
  lemma SeparatedThenLine(ls: seq<string>, x: string)
    ensures Separated(ls) + x == JoinLines(ls + [x])
  {
    if ls == [] {
      assert ls + [x] == [x];
    } else {
      JoinLinesSnoc(ls, x);
    }
  }

  /** Splitting and joining again gives back the text. */
  lemma {:induction false} JoinSplit(s: string)
    ensures JoinLines(Split(s)) == s
    decreases |s|
  {
    if s != [] {
      var rest := Split(s[1..]);
      JoinSplit(s[1..]);
      if s[0] == '\n' {
        assert Split(s) == [""] + rest;
        assert ([""] + rest)[1..] == rest;
      } else {
        JoinLinesConsChar(s[0], rest);
      }
      assert s == [s[0]] + s[1..];
    }
  }

  /** Joining lines whose first line starts with `c` is `c` followed by the
      joined lines without it. */
  lemma JoinLinesConsChar(c: char, rest: seq<string>)
    requires |rest| >= 1
    ensures JoinLines([[c] + rest[0]] + rest[1..]) == [c] + JoinLines(rest)
  {
    var h := [c] + rest[0];
    var ls := [h] + rest[1..];
    if |rest| > 1 {
      var tail := JoinLines(rest[1..]);
      assert ls[1..] == rest[1..];
      assert JoinLines(ls) == h + "\n" + tail;
      assert JoinLines(rest) == rest[0] + "\n" + tail;
      ConsAssoc(c, rest[0], tail);
    }
  }

  lemma ConsAssoc(c: char, x: string, t: string)
    ensures ([c] + x) + "\n" + t == [c] + (x + "\n" + t)
  {
  }

  lemma {:induction false} SplitSingle(l: string)
    requires NoNewline(l)
    ensures Split(l) == [l]
    decreases |l|
  {
    if l != [] {
      SplitSingle(l[1..]);
      assert [l[0]] + l[1..] == l;
    }
  }

  lemma {:induction false} SplitAfterLine(l: string, t: string)
    requires NoNewline(l)
    ensures Split(l + "\n" + t) == [l] + Split(t)
    decreases |l|
  {
    var s := l + "\n" + t;
    if l == [] {
      assert s[0] == '\n' && s[1..] == t;
    } else {
      assert s[0] == l[0] && s[1..] == l[1..] + "\n" + t;
      SplitAfterLine(l[1..], t);
      assert [l[0]] + l[1..] == l;
    }
  }

  /** Joining newline-free lines and splitting again gives back the lines. */
  lemma {:induction false} SplitJoin(ls: seq<string>)
    requires |ls| >= 1 && AllNoNewline(ls)
    ensures Split(JoinLines(ls)) == ls
    decreases |ls|
  {
    if |ls| == 1 {
      SplitSingle(ls[0]);
    } else {
      SplitJoin(ls[1..]);
      SplitAfterLine(ls[0], JoinLines(ls[1..]));
      assert [ls[0]] + ls[1..] == ls;
    }
  }

  /** `s[k..k+|pat|]` is `pat`. */
  predicate OccursAt(s: string, pat: string, k: int) {
    0 <= k && k + |pat| <= |s| && s[k..k + |pat|] == pat
  }

  /** `bytes.Index(s, pat)`: the first position of `pat` in `s`, or -1. */
  function Index(s: string, pat: string): (r: int)
    ensures -1 <= r <= |s|
    ensures r >= 0 ==> OccursAt(s, pat, r)
    ensures r >= 0 ==> forall k :: 0 <= k < r ==> !OccursAt(s, pat, k)
    ensures r == -1 ==> forall k :: !OccursAt(s, pat, k)
    decreases |s|
  {
    if |s| < |pat| then -1
    else if s[..|pat|] == pat then 0
    else
      assert s[0..|pat|] == s[..|pat|];
      var k := Index(s[1..], pat);
      ShiftOccurs(s, pat);
      if k < 0 then -1 else k + 1
  }

  lemma ShiftOccurs(s: string, pat: string)
    requires |s| >= 1
    ensures forall j :: 1 <= j ==> (OccursAt(s, pat, j) <==> OccursAt(s[1..], pat, j - 1))
  {
    forall j | 1 <= j
      ensures OccursAt(s, pat, j) <==> OccursAt(s[1..], pat, j - 1)
    {
      if j + |pat| <= |s| {
        assert s[1..][j - 1..j - 1 + |pat|] == s[j..j + |pat|];
      }
    }
  }

  /** `bytes.ReplaceAll(s, "\r\n", "\n")`: a left-to-right scan that replaces
      each CR LF pair it meets by LF. */
  function ReplaceCRLF(s: string): string
    decreases |s|
  {
    if |s| >= 2 && s[0] == '\r' && s[1] == '\n' then "\n" + ReplaceCRLF(s[2..])
    else if s == [] then ""
    else [s[0]] + ReplaceCRLF(s[1..])
  }

  /** Normalising never lengthens the text, keeps every newline, and leaves
      a text without carriage returns as it is. */
  lemma {:induction false} ReplaceCRLFShape(s: string)
    ensures |ReplaceCRLF(s)| <= |s| && Newlines(ReplaceCRLF(s)) == Newlines(s)
    ensures (forall i :: 0 <= i < |s| ==> s[i] != '\r') ==> ReplaceCRLF(s) == s
    decreases |s|
  {
    if |s| >= 2 && s[0] == '\r' && s[1] == '\n' {
      ReplaceCRLFShape(s[2..]);
      assert ("\n" + ReplaceCRLF(s[2..]))[1..] == ReplaceCRLF(s[2..]);
      assert s[1..][1..] == s[2..];
    } else if s != [] {
      ReplaceCRLFShape(s[1..]);
      assert ([s[0]] + ReplaceCRLF(s[1..]))[1..] == ReplaceCRLF(s[1..]);
    }
  }

  /** A line without the carriage return that ended it, if any. */
  function TrimCR(l: string): string {
    if |l| > 0 && l[|l| - 1] == '\r' then l[..|l| - 1] else l
  }

  /** Every line but the last loses its trailing carriage return: the last
      line was not ended by a newline. */
  function TrimLineEnds(ls: seq<string>): (r: seq<string>)
    requires |ls| >= 1
    ensures |r| == |ls|
    ensures r[|r| - 1] == ls[|ls| - 1]
    ensures forall i :: 0 <= i < |ls| - 1 ==> r[i] == TrimCR(ls[i])
    decreases |ls|
  {
    if |ls| == 1 then ls else [TrimCR(ls[0])] + TrimLineEnds(ls[1..])
  }

  lemma {:induction false} ReplaceCRLFNoNewline(l: string)
    requires NoNewline(l)
    ensures ReplaceCRLF(l) == l
    decreases |l|
  {
    if l != [] {
      ReplaceCRLFNoNewline(l[1..]);
      assert [l[0]] + l[1..] == l;
    }
  }

  lemma {:induction false} ReplaceCRLFLine(l: string, t: string)
    requires NoNewline(l)
    ensures ReplaceCRLF(l + "\n" + t) == TrimCR(l) + "\n" + ReplaceCRLF(t)
    decreases |l|
  {
    var s := l + "\n" + t;
    if l == [] {
      assert s[0] == '\n' && s[1..] == t;
    } else if l == "\r" {
      assert s[2..] == t;
    } else {
      assert s[0] == l[0] && s[1..] == l[1..] + "\n" + t;
      if |l| >= 2 { assert s[1] == l[1]; }
      ReplaceCRLFCons(s);
      ReplaceCRLFLine(l[1..], t);
      TrimCRCons(l);
      ConsAssoc(l[0], TrimCR(l[1..]), ReplaceCRLF(t));
    }
  }

  /** A character that does not start a CR LF pair is copied as it is. */
  lemma ReplaceCRLFCons(s: string)
    requires s != [] && !(|s| >= 2 && s[0] == '\r' && s[1] == '\n')
    ensures ReplaceCRLF(s) == [s[0]] + ReplaceCRLF(s[1..])
  {
  }

  lemma TrimCRCons(l: string)
    requires |l| >= 2 || (|l| == 1 && l[0] != '\r')
    ensures TrimCR(l) == [l[0]] + TrimCR(l[1..])
  {
    if |l| >= 2 {
      assert l[1..][|l| - 2] == l[|l| - 1];
      assert [l[0]] + l[1..][..|l| - 2] == l[..|l| - 1];
    }
  }

  lemma {:induction false} ReplaceCRLFJoin(ls: seq<string>)
    requires |ls| >= 1 && AllNoNewline(ls)
    ensures ReplaceCRLF(JoinLines(ls)) == JoinLines(TrimLineEnds(ls))
    decreases |ls|
  {
    if |ls| == 1 {
      ReplaceCRLFNoNewline(ls[0]);
    } else {
      ReplaceCRLFJoin(ls[1..]);
      ReplaceCRLFLine(ls[0], JoinLines(ls[1..]));
      var r := TrimLineEnds(ls);
      assert r == [TrimCR(ls[0])] + TrimLineEnds(ls[1..]);
      assert r[1..] == TrimLineEnds(ls[1..]);
    }
  }

  lemma TrimCRNoNewline(l: string)
    requires NoNewline(l)
    ensures NoNewline(TrimCR(l))
  {
  }

  /** Replacing CR LF by LF keeps the lines of the text and drops the carriage
      return that ended each line. */
  lemma ReplaceCRLFLines(s: string)
    ensures Split(ReplaceCRLF(s)) == TrimLineEnds(Split(s))
  {
    var ls := Split(s);
    JoinSplit(s);
    ReplaceCRLFJoin(ls);
    TrimLineEndsNoNewline(ls);
    SplitJoin(TrimLineEnds(ls));
  }

  lemma TrimLineEndsNoNewline(ls: seq<string>)
    requires |ls| >= 1 && AllNoNewline(ls)
    ensures AllNoNewline(TrimLineEnds(ls))
  {
    var r := TrimLineEnds(ls);
    forall i | 0 <= i < |r| ensures NoNewline(r[i]) {
      if i < |r| - 1 { TrimCRNoNewline(ls[i]); }
    }
  }

  /** `strings.ReplaceAll(s, "\n", " ")`. */
  function NewlinesToSpaces(s: string): (r: string)
    ensures |r| == |s|
    ensures forall i :: 0 <= i < |s| ==> r[i] == (if s[i] == '\n' then ' ' else s[i])
    ensures NoNewline(r)
    decreases |s|
  {
    if s == [] then ""
    else [if s[0] == '\n' then ' ' else s[0]] + NewlinesToSpaces(s[1..])
  }

  /** `strings.Repeat(" ", k)`. */
  function Spaces(k: nat): (r: string)
    ensures |r| == k
    ensures forall i :: 0 <= i < k ==> r[i] == ' '
  {
    seq(k, _ => ' ')
  }

  /** `n` empty strings, the zero value of a `[]string` of length `n`. */
  function Empties(n: nat): (r: seq<string>)
    ensures |r| == n
    ensures forall i :: 0 <= i < n ==> r[i] == ""
  {
    seq(n, _ => "")
  }

  function DigitChar(d: nat): char
    requires d < 10
  {
    "0123456789"[d]
  }

  function DigitValue(c: char): nat {
    if '0' <= c <= '9' then (c as int - '0' as int) as nat else 0
  }

  predicate IsDigit(c: char) {
    '0' <= c <= '9'
  }

  /** `fmt`'s `%d` of a non-negative integer: its decimal digits, no leading zero. */
  function Decimal(n: nat): (r: string)
    ensures |r| >= 1
    ensures forall i :: 0 <= i < |r| ==> IsDigit(r[i])
    ensures n > 0 ==> r[0] != '0'
    decreases n
  {
    if n < 10 then [DigitChar(n)] else Decimal(n / 10) + [DigitChar(n % 10)]
  }

  /** The number a string of decimal digits stands for. */
  function ParseDecimal(s: string): nat
    decreases |s|
  {
    if s == [] then 0 else ParseDecimal(s[..|s| - 1]) * 10 + DigitValue(s[|s| - 1])
  }

  /** The number of decimal digits `s` starts with. */
  function LeadingDigits(s: string): (r: nat)
    ensures r <= |s|
    decreases |s|
  {
    if s != [] && IsDigit(s[0]) then 1 + LeadingDigits(s[1..]) else 0
  }

  lemma {:induction false} LeadingDigitsOf(d: string, t: string)
    requires forall i :: 0 <= i < |d| ==> IsDigit(d[i])
    requires t != [] && !IsDigit(t[0])
    ensures LeadingDigits(d + t) == |d|
    decreases |d|
  {
    if d != [] {
      assert (d + t)[1..] == d[1..] + t;
      LeadingDigitsOf(d[1..], t);
    } else {
      assert d + t == t;
    }
  }

  lemma {:induction false} ParseDecimalOfDecimal(n: nat)
    ensures ParseDecimal(Decimal(n)) == n
    decreases n
  {
    if n >= 10 {
      ParseDecimalOfDecimal(n / 10);
      var r := Decimal(n);
      assert r[..|r| - 1] == Decimal(n / 10);
    }
  }
}
