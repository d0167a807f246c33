/** Stack frames: the weak equality that buckets are keyed by, the hash that goes
    with it, and the text that is printed. */
module Frames {
  import opened Text

  /** std::string is a sequence of 8-bit characters. */
  datatype Frame = Frame(file: string, name: string, line: nat) {
    /** operator==: the name does not count. */
    predicate Same(other: Frame) { file == other.file && line == other.line }
  }

  datatype Thread = Thread(id: nat, isCurrent: bool, frames: seq<Frame>)

  predicate SameStack(a: seq<Frame>, b: seq<Frame>) {
    |a| == |b| && forall i :: 0 <= i < |a| ==> a[i].Same(b[i])
  }

  /** What two same stacks have in common. */
  type Key = seq<(string, nat)>

  function KeyOf(frames: seq<Frame>): Key {
    seq(|frames|, i requires 0 <= i < |frames| => (frames[i].file, frames[i].line))
  }

  lemma SameIsKey(a: seq<Frame>, b: seq<Frame>)
    ensures SameStack(a, b) <==> KeyOf(a) == KeyOf(b)
    ensures SameStack(a, b) <==> |a| == |b| && forall i :: 0 <= i < |a| ==> a[i].file == b[i].file && a[i].line == b[i].line
  {
    if KeyOf(a) == KeyOf(b) {
      assert |a| == |KeyOf(a)| == |KeyOf(b)| == |b|;
      forall i | 0 <= i < |a| ensures a[i].Same(b[i]) {
        assert KeyOf(a)[i] == KeyOf(b)[i];
      }
    }
  }

  // --- FrameHash ---

  /** std::hash for the two types that are hashed, whatever they are. */
  datatype Hasher = Hasher(ofIndex: nat -> bv64, ofString: string -> bv64)

  function HashPrefix(h: Hasher, frames: seq<Frame>, n: nat): bv64
    requires n <= |frames|
  {
    if n == 0 then 0 else Mix(HashPrefix(h, frames, n - 1), h.ofIndex(n - 1), h.ofString(frames[n - 1].file))
  }

  function Mix(hash: bv64, index: bv64, text: bv64): bv64 { hash ^ index ^ text }

  /** The hash is made of the indices and the files, one after the other. */
  lemma HashMeans(h: Hasher, frames: seq<Frame>, n: nat)
    requires n < |frames|
    ensures HashPrefix(h, frames, 0) == 0
    ensures HashPrefix(h, frames, n + 1) == HashPrefix(h, frames, n) ^ h.ofIndex(n) ^ h.ofString(frames[n].file)
  {
  }

  lemma MixSteps(hash: bv64, index: bv64, text: bv64)
    ensures (hash ^ index) ^ text == Mix(hash, index, text)
  {
  }

  method FrameHash(h: Hasher, frames: seq<Frame>) returns (hash: bv64)
    ensures hash == HashPrefix(h, frames, |frames|)
    ensures forall other :: SameStack(frames, other) ==> hash == HashPrefix(h, other, |other|)
  {
    hide Mix;
    hash := 0;
    for i := 0 to |frames|
      invariant hash == HashPrefix(h, frames, i)
    {
      MixSteps(hash, h.ofIndex(i), h.ofString(frames[i].file));
      hash := hash ^ h.ofIndex(i);
      hash := hash ^ h.ofString(frames[i].file);
    }
    forall other | SameStack(frames, other) ensures hash == HashPrefix(h, other, |other|) {
      HashRespectsSame(h, frames, other, |frames|);
    }
  }

  /** Equal stacks have equal hashes, as an unordered_map needs. */
  lemma {:induction false} HashRespectsSame(h: Hasher, a: seq<Frame>, b: seq<Frame>, n: nat)
    requires SameStack(a, b) && n <= |a|
    ensures HashPrefix(h, a, n) == HashPrefix(h, b, n)
  {
    hide Mix;
    if n > 0 {
      HashRespectsSame(h, a, b, n - 1);
    }
  }

  // --- Printing ---

  /** print_frame and print_frame_without_line_number. */
  function FrameText(f: Frame, withLine: bool): (text: string)
    ensures text != ""
  {
    f.file + ":" + f.name + if withLine then ":" + Decimal(f.line) else ""
  }

  /** A stack as it is printed, outermost frame first; frames are most recent first. */
  function StackText(frames: seq<Frame>, withLine: bool): string
    requires frames != []
  {
    var last := |frames| - 1;
    FrameText(frames[last], withLine) + if last == 0 then "" else ";" + StackText(frames[..last], withLine)
  }

  function BucketLine(frames: seq<Frame>, count: nat, withLine: bool): string
    requires frames != []
  {
    StackText(frames, withLine) + " " + Decimal(count)
  }

  /** A printed stack, split at its semicolons, is its frames, outermost first. */
  lemma {:induction false} StackTextMeans(frames: seq<Frame>, withLine: bool)
    requires frames != [] && SemicolonFree(frames)
    ensures var pieces := Split(StackText(frames, withLine), ';');
      |pieces| == |frames| && forall j :: 0 <= j < |pieces| ==>
        var f := frames[|frames| - 1 - j];
        pieces[j] == f.file + ":" + f.name + if withLine then ":" + Decimal(f.line) else ""
    decreases |frames|
  {
    hide FrameText, Split, Decimal, SemicolonFree, Free;
    var last := |frames| - 1;
    var text, pieces := FrameText(frames[last], withLine), Split(StackText(frames, withLine), ';');
    LastSemicolonFree(frames);
    FrameTextFree(frames[last], withLine, ';');
    FrameTextMeans(frames[last], withLine);
    if last == 0 {
      SplitFree(text, ';');
      assert StackText(frames, withLine) == text + "" == text;
    } else {
      var front, deeper := frames[..last], StackText(frames[..last], withLine);
      StackTextMeans(front, withLine);
      assert StackText(frames, withLine) == text + (";" + deeper) == text + [';'] + deeper;
      hide StackText;
      SplitFirst(text, deeper, ';');
      forall j | 1 <= j < |pieces| ensures pieces[j] == Split(deeper, ';')[j - 1] && front[last - 1 - (j - 1)] == frames[last - j] {
      }
    }
  }

  lemma LastSemicolonFree(frames: seq<Frame>)
    requires frames != [] && SemicolonFree(frames)
    ensures Free(frames[|frames| - 1].file, ';') && Free(frames[|frames| - 1].name, ';') && SemicolonFree(frames[..|frames| - 1])
  {
  }

  lemma FrameTextMeans(f: Frame, withLine: bool)
    ensures FrameText(f, withLine) == f.file + ":" + f.name + if withLine then ":" + Decimal(f.line) else ""
  {
  }

  predicate ColonFree(frames: seq<Frame>) {
    forall i :: 0 <= i < |frames| ==> Free(frames[i].file, ':') && Free(frames[i].name, ':')
  }

  /** With line numbers, and no colon in a file or function name, the text of a
      stack followed by a count determines the stack, names included, and the count. */
  lemma {:induction false} TextDetermines(a: seq<Frame>, b: seq<Frame>, m: nat, n: nat)
    requires a != [] && b != [] && ColonFree(a) && ColonFree(b)
    requires BucketLine(a, m, true) == BucketLine(b, n, true)
    ensures a == b && m == n
    decreases |a|
  {
    var f, g := a[|a| - 1], b[|b| - 1];
    var s := Rest(a, m);
    var t := Rest(b, n);
    LineParts(a, m);
    LineParts(b, n);
    FieldEnds(f.file, g.file, f.name + ":" + (Decimal(f.line) + s), g.name + ":" + (Decimal(g.line) + t), ':');
    FieldEnds(f.name, g.name, Decimal(f.line) + s, Decimal(g.line) + t, ':');
    NumberEnds(f.line, g.line, s, t);
    assert s[0] == t[0] && s[1..] == t[1..];
    if |a| == 1 {
      NumberEnds(m, n, " ", " ") by { assert Decimal(m) + " " == s[1..] + " " && Decimal(n) + " " == t[1..] + " "; }
      assert a == [f] && b == [g];
    } else {
      assert s[1..] == BucketLine(a[..|a| - 1], m, true) && t[1..] == BucketLine(b[..|b| - 1], n, true);
      TextDetermines(a[..|a| - 1], b[..|b| - 1], m, n);
      assert a == a[..|a| - 1] + [f] && b == b[..|b| - 1] + [g];
    }
  }

  predicate NewlineFree(frames: seq<Frame>) {
    forall i :: 0 <= i < |frames| ==> Free(frames[i].file, '\n') && Free(frames[i].name, '\n')
  }

  lemma FrameTextFree(f: Frame, withLine: bool, c: char)
    requires Free(f.file, c) && Free(f.name, c) && c != ':' && !IsDigit(c)
    ensures Free(FrameText(f, withLine), c) && !AllSpace(FrameText(f, withLine))
  {
    ParseDecimal(f.line);
    assert FrameText(f, withLine)[|f.file|] == ':';
  }

  lemma {:induction false} StackTextFree(frames: seq<Frame>, withLine: bool)
    requires frames != [] && NewlineFree(frames)
    ensures Free(StackText(frames, withLine), '\n')
    decreases |frames|
  {
    var last := |frames| - 1;
    FrameTextFree(frames[last], withLine, '\n');
    if last > 0 {
      hide FrameText;
      StackTextFree(frames[..last], withLine);
    }
  }

  /** All that is printed of two stacks without line numbers. */
  predicate SameNames(a: seq<Frame>, b: seq<Frame>) {
    |a| == |b| && forall i :: 0 <= i < |a| ==> a[i].file == b[i].file && a[i].name == b[i].name
  }

  predicate SemicolonFree(frames: seq<Frame>) {
    forall i :: 0 <= i < |frames| ==> Free(frames[i].file, ';') && Free(frames[i].name, ';')
  }

  /** Without line numbers a line determines the file and function names and the
      count, if neither separator is in a name. */
  lemma LineDeterminesNames(a: seq<Frame>, b: seq<Frame>, m: nat, n: nat)
    requires a != [] && b != [] && ColonFree(a) && ColonFree(b) && SemicolonFree(a) && SemicolonFree(b)
    ensures BucketLine(a, m, false) == BucketLine(b, n, false) <==> SameNames(a, b) && m == n
  {
    if BucketLine(a, m, false) == BucketLine(b, n, false) {
      ParseDecimal(m);
      ParseDecimal(n);
      FieldStarts(StackText(a, false), StackText(b, false), Decimal(m), Decimal(n), ' ');
      TextDeterminesNames(a, b);
    }
    if SameNames(a, b) {
      NamesDetermineText(a, b);
    }
  }

  lemma {:induction false} NamesDetermineText(a: seq<Frame>, b: seq<Frame>)
    requires a != [] && SameNames(a, b)
    ensures StackText(a, false) == StackText(b, false)
    decreases |a|
  {
    if |a| > 1 {
      NamesDetermineText(a[..|a| - 1], b[..|b| - 1]);
    }
  }

  lemma {:induction false} TextDeterminesNames(a: seq<Frame>, b: seq<Frame>)
    requires a != [] && b != [] && ColonFree(a) && ColonFree(b) && SemicolonFree(a) && SemicolonFree(b)
    requires StackText(a, false) == StackText(b, false)
    ensures SameNames(a, b)
    decreases |a|
  {
    var i, j := |a| - 1, |b| - 1;
    var f, g := a[i], b[j];
    var s := if i == 0 then "" else ";" + StackText(a[..i], false);
    var t := if j == 0 then "" else ";" + StackText(b[..j], false);
    TextParts(a);
    TextParts(b);
    FieldEnds(f.file, g.file, f.name + s, g.name + t, ':');
    NameEnds(f.name, g.name, s, t);
    if i > 0 {
      assert s[1..] == StackText(a[..i], false) && t[1..] == StackText(b[..j], false);
      TextDeterminesNames(a[..i], b[..j]);
      assert a == a[..i] + [f] && b == b[..j] + [g];
    }
  }

  lemma TextParts(a: seq<Frame>)
    requires a != []
    ensures var i := |a| - 1;
      StackText(a, false) == a[i].file + ":" + (a[i].name + if i == 0 then "" else ";" + StackText(a[..i], false))
  {
    var i := |a| - 1;
    var s := if i == 0 then "" else ";" + StackText(a[..i], false);
    assert a[i].file + ":" + a[i].name + "" == a[i].file + ":" + a[i].name;
    Append(a[i].file + ":", a[i].name, s);
  }

  lemma NameEnds(a: string, b: string, s: string, t: string)
    requires Free(a, ';') && Free(b, ';') && a + s == b + t
    requires (s == "" || s[0] == ';') && (t == "" || t[0] == ';')
    ensures a == b && s == t
  {
    var u := a + s;
    assert s != "" ==> u[|a|] == ';';
    assert t != "" ==> u[|b|] == ';';
    assert forall i :: 0 <= i < |a| ==> u[i] == a[i];
    assert forall i :: 0 <= i < |b| ==> u[i] == b[i];
    assert |a| == |b|;
    assert a == u[..|a|] && b == u[..|b|] && s == u[|a|..] && t == u[|b|..];
  }

  /** What follows the first printed frame in the line of a bucket. */
  function Rest(a: seq<Frame>, m: nat): (s: string)
    requires a != []
    ensures s != "" && s[0] == if |a| == 1 then ' ' else ';'
  {
    if |a| == 1 then " " + Decimal(m) else ";" + BucketLine(a[..|a| - 1], m, true)
  }

  lemma LineParts(a: seq<Frame>, m: nat)
    requires a != []
    ensures var f := a[|a| - 1];
      BucketLine(a, m, true) == f.file + ":" + (f.name + ":" + (Decimal(f.line) + Rest(a, m)))
  {
    var f, last := a[|a| - 1], |a| - 1;
    var deeper := if last == 0 then "" else StackText(a[..last], true);
    var more := if last == 0 then "" else ";" + deeper;
    assert FrameText(f, true) == f.file + ":" + f.name + (":" + Decimal(f.line));
    assert BucketLine(a, m, true) == (FrameText(f, true) + more) + " " + Decimal(m);
    assert Rest(a, m) == if last == 0 then " " + Decimal(m) else ";" + (deeper + " " + Decimal(m));
    hide *;
    Regroup(f.file, f.name, Decimal(f.line), more, Decimal(m));
    if last > 0 {
      Append(";", deeper, " ");
      Append(";", deeper + " ", Decimal(m));
    } else {
      assert more + " " == " ";
    }
  }

  lemma Append(a: string, b: string, c: string)
    ensures (a + b) + c == a + (b + c)
  {
  }

  lemma Regroup(file: string, name: string, number: string, more: string, count: string)
    ensures ((file + ":" + name + (":" + number)) + more) + " " + count
         == file + ":" + (name + ":" + (number + (more + " " + count)))
  {
    hide *;
    var c, a, n := more + " " + count, file + ":" + name, ":" + number;
    Append(a + n, more, " ");
    Append(a + n, more + " ", count);
    Append(a, n, c);
    Append(":", number, c);
    Append(file + ":", name, ":" + (number + c));
    Append(name, ":", number + c);
  }
}
