/** Text as it is written to a stream and as Python's line iteration, strip, split
    and int read it back. */
module Text {
  import opened Wrappers

  // --- Numbers ---

  predicate IsDigit(c: char) { '0' <= c <= '9' }

  function Digit(d: nat): (c: char)
    requires d < 10
    ensures IsDigit(c)
  {
    '0' + d as char
  }

  function Decimal(n: nat): string {
    if n < 10 then [Digit(n)] else Decimal(n / 10) + [Digit(n % 10)]
  }

  /** The number that a string of digits stands for; None for any other string. */
  function ParseNat(s: string): Option<nat> {
    if s == "" || !IsDigit(s[|s| - 1]) then None
    else
      var d := (s[|s| - 1] - '0') as nat;
      if |s| == 1 then Some(d)
      else
        match ParseNat(s[..|s| - 1])
        case None => None
        case Some(n) => Some(10 * n + d)
  }

  lemma {:induction false} ParseDecimal(n: nat)
    ensures ParseNat(Decimal(n)) == Some(n)
    ensures Decimal(n) != "" && forall i :: 0 <= i < |Decimal(n)| ==> IsDigit(Decimal(n)[i])
  {
    if n >= 10 {
      ParseDecimal(n / 10);
      assert Decimal(n)[..|Decimal(n)| - 1] == Decimal(n / 10);
    }
  }

  /** Decimal ends in the last digit, and the others are in front of it. */
  lemma DecimalMeans(n: nat)
    ensures Decimal(n) == (if n < 10 then "" else Decimal(n / 10)) + ["0123456789"[n % 10]]
  {
    assert Digit(n % 10) == "0123456789"[n % 10];
  }

  /** Any string of digits is a number, and leading zeros do not count. */
  lemma {:induction false} ParseMeans(s: string)
    ensures ParseNat(s).Some? <==> s != "" && forall i :: 0 <= i < |s| ==> '0' <= s[i] <= '9'
    ensures s != "" ==> ParseNat("0" + s) == ParseNat(s)
  {
    if s != "" {
      var front := s[..|s| - 1];
      ParseMeans(front);
      assert s == front + [s[|s| - 1]] && ("0" + s)[..|s|] == "0" + front;
      if front == "" {
        assert "0" + front == "0" && "0"[..0] == "";
        assert ParseNat("0") == Some(0);
      }
    }
  }

  // --- Fields ---

  predicate Free(s: string, c: char) {
    forall i :: 0 <= i < |s| ==> s[i] != c
  }

  /** A field without its separator ends at the first separator. */
  lemma FieldEnds(a: string, b: string, x: string, y: string, sep: char)
    requires Free(a, sep) && Free(b, sep) && a + [sep] + x == b + [sep] + y
    ensures a == b && x == y
  {
    var s := a + [sep] + x;
    assert s[|a|] == sep && s[|b|] == sep;
    assert forall i :: 0 <= i < |a| ==> s[i] == a[i];
    assert forall i :: 0 <= i < |b| ==> s[i] == b[i];
    assert |a| == |b|;
    assert a == s[..|a|] && b == s[..|b|];
    assert x == s[|a| + 1..] && y == s[|b| + 1..];
  }

  /** A last field without its separator starts after the last separator. */
  lemma FieldStarts(a: string, b: string, x: string, y: string, sep: char)
    requires Free(x, sep) && Free(y, sep) && a + [sep] + x == b + [sep] + y
    ensures a == b && x == y
  {
    var s := a + [sep] + x;
    assert s[|a|] == sep && s[|b|] == sep;
    assert forall i :: |a| < i < |s| ==> s[i] == x[i - |a| - 1];
    assert forall i :: |b| < i < |s| ==> s[i] == y[i - |b| - 1];
    assert |a| == |b|;
    assert a == s[..|a|] && b == s[..|b|];
    assert x == s[|a| + 1..] && y == s[|b| + 1..];
  }

  /** A number ends at the first character that is not a digit. */
  lemma NumberEnds(m: nat, n: nat, x: string, y: string)
    requires x != "" && !IsDigit(x[0]) && y != "" && !IsDigit(y[0]) && Decimal(m) + x == Decimal(n) + y
    ensures m == n && x == y
  {
    ParseDecimal(m);
    ParseDecimal(n);
    var a, b, s := Decimal(m), Decimal(n), Decimal(m) + x;
    assert s[|a|] == x[0] && s[|b|] == y[0];
    assert forall i :: 0 <= i < |a| ==> s[i] == a[i];
    assert forall i :: 0 <= i < |b| ==> s[i] == b[i];
    assert |a| == |b|;
    assert a == s[..|a|] && b == s[..|b|] && x == s[|a|..] && y == s[|b|..];
  }

  // --- Lines ---

  /** A stream to which each line has been written with a newline after it. */
  function Unlines(lines: seq<string>): string {
    if lines == [] then "" else lines[0] + "\n" + Unlines(lines[1..])
  }

  /** The first line of a stream, with its newline if it has one. */
  function FirstLine(s: string): (line: string)
    requires s != ""
    ensures line != "" && line <= s
  {
    if s[0] == '\n' || |s| == 1 then s[..1] else [s[0]] + FirstLine(s[1..])
  }

  /** Iteration over a stream. */
  function LinesOf(s: string): seq<string>
    decreases |s|
  {
    if s == "" then [] else [FirstLine(s)] + LinesOf(s[|FirstLine(s)|..])
  }

  lemma {:induction false} FirstLineOf(line: string, rest: string)
    requires Free(line, '\n')
    ensures FirstLine(line + "\n" + rest) == line + "\n"
  {
    var s := line + "\n" + rest;
    if line != "" {
      FirstLineOf(line[1..], rest);
      assert s[1..] == line[1..] + "\n" + rest;
      assert line[1..] + "\n" != "";
      assert s[0] == line[0];
    }
  }

  /** A stream ends with the last line that was written, and its newline. */
  lemma {:induction false} UnlinesSnoc(lines: seq<string>, line: string)
    ensures Unlines(lines + [line]) == Unlines(lines) + line + "\n"
  {
    if lines == [] {
      assert [] + [line] == [line] && [line][1..] == [];
      assert Unlines([line]) == line + "\n" + "";
      assert "" + line == line;
    } else {
      assert (lines + [line])[1..] == lines[1..] + [line] && (lines + [line])[0] == lines[0];
      UnlinesSnoc(lines[1..], line);
      var first, rest := lines[0] + "\n", Unlines(lines[1..]);
      assert first + (rest + line + "\n") == (first + rest) + line + "\n";
    }
  }

  /** A line is read up to its newline, and at the end without one. */
  lemma LinesOfMeans(line: string, rest: string)
    requires Free(line, '\n')
    ensures LinesOf(line + "\n" + rest) == [line + "\n"] + LinesOf(rest)
    ensures LinesOf(line) == if line == "" then [] else [line]
  {
    FirstLineOf(line, rest);
    var s := line + "\n" + rest;
    assert s[|line| + 1..] == rest;
    if line != "" {
      WholeLine(line);
      assert line[|line|..] == "";
    }
  }

  lemma {:induction false} WholeLine(line: string)
    requires line != "" && Free(line, '\n')
    ensures FirstLine(line) == line
  {
    if |line| > 1 {
      WholeLine(line[1..]);
      assert [line[0]] + line[1..] == line;
    } else {
      assert line[..1] == line;
    }
  }

  /** Reading a stream of lines gives the lines that were written. */
  lemma {:induction false} LinesOfUnlines(lines: seq<string>)
    requires forall i :: 0 <= i < |lines| ==> Free(lines[i], '\n')
    ensures |LinesOf(Unlines(lines))| == |lines|
    ensures forall i :: 0 <= i < |lines| ==> LinesOf(Unlines(lines))[i] == lines[i] + "\n"
  {
    if lines != [] {
      var s := Unlines(lines);
      FirstLineOf(lines[0], Unlines(lines[1..]));
      assert s[|lines[0]| + 1..] == Unlines(lines[1..]);
      LinesOfUnlines(lines[1..]);
    }
  }

  // --- strip and split ---

  /** What str.strip of Python 3 removes. */
  predicate IsSpace(c: char) {
    || '\t' <= c <= '\r' || '\U{1c}' <= c <= ' '
    || c in {'\U{85}', '\U{a0}', '\U{1680}', '\U{2028}', '\U{2029}', '\U{202f}', '\U{205f}', '\U{3000}'}
    || '\U{2000}' <= c <= '\U{200a}'
  }

  /** Tab to carriage return, the separators from 0x1c, blank, and those beyond ASCII. */
  lemma IsSpaceMeans(c: char)
    ensures IsSpace(c) <==>
      c as int in [0x09, 0x0a, 0x0b, 0x0c, 0x0d, 0x1c, 0x1d, 0x1e, 0x1f, 0x20, 0x85, 0xa0, 0x1680,
                   0x2000, 0x2001, 0x2002, 0x2003, 0x2004, 0x2005, 0x2006, 0x2007, 0x2008, 0x2009, 0x200a,
                   0x2028, 0x2029, 0x202f, 0x205f, 0x3000]
  {
  }

  function StripLeft(s: string): string {
    if s != "" && IsSpace(s[0]) then StripLeft(s[1..]) else s
  }

  function StripRight(s: string): string {
    if s != "" && IsSpace(s[|s| - 1]) then StripRight(s[..|s| - 1]) else s
  }

  function Strip(s: string): string { StripRight(StripLeft(s)) }

  /** Only white space goes, and all of it, from both ends. */
  lemma StripMeans(s: string) returns (a: string, b: string)
    ensures s == a + Strip(s) + b && AllSpace(a) && AllSpace(b)
    ensures Strip(s) != "" ==> !IsSpace(Strip(s)[0]) && !IsSpace(Strip(s)[|Strip(s)| - 1])
  {
    hide IsSpace;
    a := StripLeftMeans(s);
    b := StripRightMeans(StripLeft(s));
    assert a + (Strip(s) + b) == a + Strip(s) + b;
    assert Strip(s) != "" ==> Strip(s)[0] == StripLeft(s)[0];
  }

  lemma {:induction false} StripLeftMeans(s: string) returns (a: string)
    ensures s == a + StripLeft(s) && AllSpace(a)
    ensures StripLeft(s) != "" ==> !IsSpace(StripLeft(s)[0])
  {
    hide IsSpace;
    a := "";
    if s != "" && IsSpace(s[0]) {
      a := StripLeftMeans(s[1..]);
      assert s == [s[0]] + (a + StripLeft(s[1..])) == [s[0]] + a + StripLeft(s[1..]);
      a := [s[0]] + a;
    }
  }

  lemma {:induction false} StripRightMeans(s: string) returns (b: string)
    ensures s == StripRight(s) + b && AllSpace(b)
    ensures StripRight(s) != "" ==> !IsSpace(StripRight(s)[|StripRight(s)| - 1])
  {
    hide IsSpace;
    b := "";
    if s != "" && IsSpace(s[|s| - 1]) {
      var n := |s| - 1;
      b := StripRightMeans(s[..n]);
      assert s == (StripRight(s[..n]) + b) + [s[n]] == StripRight(s[..n]) + (b + [s[n]]);
      b := b + [s[n]];
    }
  }

  function Split(s: string, sep: char): (pieces: seq<string>)
    ensures pieces != []
  {
    if s == "" then [""]
    else
      var rest := Split(s[1..], sep);
      if s[0] == sep then [""] + rest else [[s[0]] + rest[0]] + rest[1..]
  }

  /** Pieces with a separator after each. */
  function Terminated(pieces: seq<string>, sep: char): string {
    if pieces == [] then "" else pieces[0] + [sep] + Terminated(pieces[1..], sep)
  }

  /** A semicolon, say, after each piece. */
  lemma {:induction false} TerminatedMeans(pieces: seq<string>, piece: string, sep: char)
    ensures Terminated([], sep) == ""
    ensures Terminated(pieces + [piece], sep) == Terminated(pieces, sep) + piece + [sep]
  {
    if pieces == [] {
      assert [] + [piece] == [piece];
      assert Terminated([piece], sep) == piece + [sep] + "";
    } else {
      TerminatedMeans(pieces[1..], piece, sep);
      assert (pieces + [piece])[1..] == pieces[1..] + [piece];
    }
  }

  lemma {:induction false} SplitFirst(a: string, rest: string, sep: char)
    requires Free(a, sep)
    ensures Split(a + [sep] + rest, sep) == [a] + Split(rest, sep)
  {
    var s := a + [sep] + rest;
    if a == "" {
      assert s[1..] == rest;
    } else {
      SplitFirst(a[1..], rest, sep);
      assert s[1..] == a[1..] + [sep] + rest && s[0] == a[0] != sep;
      assert [a[0]] + a[1..] == a;
      assert ([a[1..]] + Split(rest, sep))[1..] == Split(rest, sep);
    }
  }

  /** Splitting terminated pieces gives them and an empty last one. */
  lemma {:induction false} SplitTerminated(pieces: seq<string>, sep: char)
    requires forall i :: 0 <= i < |pieces| ==> Free(pieces[i], sep)
    ensures Split(Terminated(pieces, sep), sep) == pieces + [""]
  {
    hide Split, Free;
    if pieces == [] {
      FreeEmpty(sep);
      SplitFree("", sep);
    } else {
      var rest := Terminated(pieces[1..], sep);
      assert Terminated(pieces, sep) == pieces[0] + [sep] + rest;
      hide Terminated;
      SplitFirst(pieces[0], rest, sep);
      var others := pieces[1..];
      assert forall i :: 0 <= i < |others| ==> others[i] == pieces[i + 1];
      SplitTerminated(others, sep);
      assert [pieces[0]] + (others + [""]) == pieces + [""];
    }
  }

  lemma FreeEmpty(sep: char)
    ensures Free("", sep)
  {
  }

  lemma {:induction false} SplitFree(s: string, sep: char)
    requires Free(s, sep)
    ensures Split(s, sep) == [s]
  {
    if s != "" {
      SplitFree(s[1..], sep);
      assert [s[0]] + s[1..] == s;
    }
  }

  predicate AllSpace(s: string) {
    forall i :: 0 <= i < |s| ==> IsSpace(s[i])
  }

  lemma {:induction false} StripLeftConcat(a: string, b: string)
    requires !AllSpace(a)
    ensures StripLeft(a + b) == StripLeft(a) + b && StripLeft(a) != ""
  {
    if IsSpace(a[0]) {
      assert (a + b)[1..] == a[1..] + b;
      assert !AllSpace(a[1..]) by {
        var i :| 0 <= i < |a| && !IsSpace(a[i]);
        assert a[1..][i - 1] == a[i];
      }
      StripLeftConcat(a[1..], b);
    }
  }

  lemma {:induction false} StripLeftFree(s: string, c: char)
    requires Free(s, c)
    ensures Free(StripLeft(s), c)
  {
    if s != "" && IsSpace(s[0]) {
      StripLeftFree(s[1..], c);
    }
  }

  lemma {:induction false} StripLeftShrinks(s: string)
    ensures |StripLeft(s)| <= |s|
    ensures StripLeft(s) == s <==> s == "" || !IsSpace(s[0])
  {
    if s != "" && IsSpace(s[0]) {
      StripLeftShrinks(s[1..]);
    }
  }

  /** A line that ends in a visible character loses only its newline on the right. */
  lemma StripLine(s: string)
    requires s != "" && !IsSpace(s[|s| - 1])
    ensures Strip(s + "\n") == StripLeft(s)
  {
    assert !AllSpace(s) by { assert !IsSpace(s[|s| - 1]); }
    StripLeftConcat(s, "\n");
    StripLeftEnd(s);
    var t := StripLeft(s);
    assert StripRight(t) == t;
    assert (t + "\n")[|t|] == '\n' && (t + "\n")[..|t|] == t;
  }

  lemma {:induction false} StripLeftEnd(s: string)
    requires s != "" && !IsSpace(s[|s| - 1])
    ensures StripLeft(s) != "" && StripLeft(s)[|StripLeft(s)| - 1] == s[|s| - 1]
  {
    if IsSpace(s[0]) {
      StripLeftEnd(s[1..]);
    }
  }
}
