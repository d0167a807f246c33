/** ProbeLoop and PrintFrames: what is recorded in a run, and how it is counted
    and printed. */
module Sampling {
  import opened Wrappers
  import opened Text
  import opened Frames
  import Session
  import ThreadWalk

  /** FrameTS. */
  datatype Record = Record(ts: nat, frames: seq<Frame>)

  // --- Buckets ---

  /** An entry of the bucket map, keyed up to SameStack. */
  datatype Bucket = Bucket(frames: seq<Frame>, count: nat)

  function Total(buckets: seq<Bucket>): nat {
    if buckets == [] then 0 else Total(buckets[..|buckets| - 1]) + buckets[|buckets| - 1].count
  }

  function Stacks(records: seq<Record>): (stacks: seq<seq<Frame>>)
    ensures |stacks| == |records|
  {
    seq(|records|, i requires 0 <= i < |records| => records[i].frames)
  }

  function Keys(stacks: seq<seq<Frame>>): (keys: seq<Key>)
    ensures |keys| == |stacks|
  {
    seq(|stacks|, i requires 0 <= i < |stacks| => KeyOf(stacks[i]))
  }

  ghost predicate Apart(buckets: seq<Bucket>) {
    forall i, j :: 0 <= i < j < |buckets| ==> KeyOf(buckets[i].frames) != KeyOf(buckets[j].frames)
  }

  ghost predicate HasBucket(buckets: seq<Bucket>, key: Key) {
    exists k :: 0 <= k < |buckets| && KeyOf(buckets[k].frames) == key
  }

  /** No stack before the i-th is the same as it. */
  predicate FirstAt(stacks: seq<seq<Frame>>, i: nat): (first: bool)
    ensures first ==> i < |stacks|
  {
    i < |stacks| && forall j :: 0 <= j < i ==> KeyOf(stacks[j]) != KeyOf(stacks[i])
  }

  ghost predicate IsFirst(stacks: seq<seq<Frame>>, frames: seq<Frame>): (first: bool)
    ensures first ==> frames in stacks
  {
    exists i: nat :: FirstAt(stacks, i) && stacks[i] == frames
  }

  /** The number of stacks that are the same as this one. */
  function Occurrences(stacks: seq<seq<Frame>>, frames: seq<Frame>): nat {
    multiset(Keys(stacks))[KeyOf(frames)]
  }

  /** buckets count stacks: there is one bucket for each key that occurs, holding
      the first stack with that key and the number of stacks that have it. */
  ghost predicate Counts(stacks: seq<seq<Frame>>, buckets: seq<Bucket>) {
    && Apart(buckets)
    && (forall key :: key in Keys(stacks) ==> HasBucket(buckets, key))
    && (forall k :: 0 <= k < |buckets| ==>
          IsFirst(stacks, buckets[k].frames) && buckets[k].count == Occurrences(stacks, buckets[k].frames))
    && Total(buckets) == |stacks|
  }

  /** buckets.find: only entries with the hash of the key are compared with it.
      Since the hash respects sameness this finds the bucket if there is one. */
  method Find(h: Hasher, buckets: seq<Bucket>, frames: seq<Frame>) returns (k: nat)
    ensures k <= |buckets|
    ensures k < |buckets| ==> SameStack(buckets[k].frames, frames)
    ensures k == |buckets| ==> forall j :: 0 <= j < |buckets| ==> !SameStack(buckets[j].frames, frames)
  {
    var hash := FrameHash(h, frames);
    k := 0;
    while k < |buckets|
      invariant k <= |buckets|
      invariant forall j :: 0 <= j < k ==> !SameStack(buckets[j].frames, frames)
    {
      var other := FrameHash(h, buckets[k].frames);
      if SameStack(buckets[k].frames, frames) {
        HashRespectsSame(h, buckets[k].frames, frames, |frames|);
      }
      if other == hash && SameStack(buckets[k].frames, frames) {
        return;
      }
      k := k + 1;
    }
  }

  /** The first loop of PrintFrames. */
  method FillBuckets(h: Hasher, records: seq<Record>) returns (buckets: seq<Bucket>)
    ensures Counts(Stacks(records), buckets)
  {
    hide Counts, SameStack, KeyOf;
    buckets := [];
    CountsNone();
    for n := 0 to |records|
      invariant Counts(Stacks(records)[..n], buckets)
    {
      ghost var stacks := Stacks(records)[..n];
      var frames := records[n].frames;
      assert Stacks(records)[..n + 1] == stacks + [frames];
      var k := Find(h, buckets, frames);
      if k == |buckets| {
        forall j | 0 <= j < |buckets| ensures KeyOf(buckets[j].frames) != KeyOf(frames) {
          SameIsKey(buckets[j].frames, frames);
        }
        NewBucket(stacks, buckets, frames);
        buckets := buckets + [Bucket(frames, 1)];
      } else {
        SameIsKey(buckets[k].frames, frames);
        SameBucket(stacks, buckets, frames, k);
        buckets := buckets[k := buckets[k].(count := buckets[k].count + 1)];
      }
    }
    assert Stacks(records)[..|records|] == Stacks(records);
  }

  lemma CountsNone()
    ensures Counts([], [])
  {
  }

  lemma KeysSnoc(stacks: seq<seq<Frame>>, frames: seq<Frame>)
    ensures Keys(stacks + [frames]) == Keys(stacks) + [KeyOf(frames)]
    ensures multiset(Keys(stacks + [frames])) == multiset(Keys(stacks)) + multiset{KeyOf(frames)}
  {
  }

  lemma FirstSnoc(stacks: seq<seq<Frame>>, frames: seq<Frame>)
    ensures forall f :: IsFirst(stacks, f) ==> IsFirst(stacks + [frames], f)
    ensures KeyOf(frames) !in Keys(stacks) ==> IsFirst(stacks + [frames], frames)
  {
    hide KeyOf;
    var more := stacks + [frames];
    forall f | IsFirst(stacks, f) ensures IsFirst(more, f) {
      var i: nat :| FirstAt(stacks, i) && stacks[i] == f;
      assert FirstAt(more, i);
    }
    if KeyOf(frames) !in Keys(stacks) {
      assert forall j :: 0 <= j < |stacks| ==> KeyOf(stacks[j]) == Keys(stacks)[j];
      assert FirstAt(more, |stacks|);
    }
  }

  lemma OccurrencesSnoc(stacks: seq<seq<Frame>>, frames: seq<Frame>)
    ensures forall f :: Occurrences(stacks + [frames], f) == Occurrences(stacks, f) + if KeyOf(f) == KeyOf(frames) then 1 else 0
    ensures KeyOf(frames) !in Keys(stacks) ==> Occurrences(stacks, frames) == 0
    ensures forall key :: key in Keys(stacks + [frames]) ==> key in Keys(stacks) || key == KeyOf(frames)
  {
    hide KeyOf;
    KeysSnoc(stacks, frames);
  }

  /** The number of places at which a stack is the same. */
  lemma {:induction false} OccurrencesMeans(stacks: seq<seq<Frame>>, frames: seq<Frame>) returns (places: set<nat>)
    ensures |places| == Occurrences(stacks, frames)
    ensures forall i: nat :: i in places <==> i < |stacks| && SameStack(stacks[i], frames)
  {
    hide KeyOf, SameStack, Occurrences;
    places := {};
    if stacks == [] {
      NoOccurrences(frames);
    } else {
      var n := |stacks| - 1;
      places := OccurrencesMeans(stacks[..n], frames);
      OccurrencesSnoc(stacks[..n], stacks[n]);
      assert stacks == stacks[..n] + [stacks[n]];
      SameIsKey(stacks[n], frames);
      if SameStack(stacks[n], frames) {
        places := places + {n};
      }
    }
  }

  lemma NoOccurrences(frames: seq<Frame>)
    ensures Occurrences([], frames) == 0
  {
  }

  /** A bucket holds the first stack that is the same and the number of those that are. */
  lemma CountsMeans(stacks: seq<seq<Frame>>, buckets: seq<Bucket>, k: nat) returns (places: set<nat>, first: nat)
    requires Counts(stacks, buckets) && k < |buckets|
    ensures buckets[k].count == |places|
    ensures forall i: nat :: i in places <==> i < |stacks| && SameStack(stacks[i], buckets[k].frames)
    ensures first < |stacks| && stacks[first] == buckets[k].frames
    ensures forall j :: 0 <= j < first ==> !SameStack(stacks[j], stacks[first])
  {
    hide KeyOf, SameStack, Occurrences, Counts, IsFirst, FirstAt;
    places := OccurrencesMeans(stacks, buckets[k].frames);
    first := FirstOf(stacks, buckets, k);
    FirstMeans(stacks, first);
  }

  lemma FirstMeans(stacks: seq<seq<Frame>>, i: nat)
    requires FirstAt(stacks, i)
    ensures forall j :: 0 <= j < i ==> !SameStack(stacks[j], stacks[i])
  {
    forall j | 0 <= j < i ensures !SameStack(stacks[j], stacks[i]) {
      SameIsKey(stacks[j], stacks[i]);
    }
  }

  /** Each stack has a bucket, and the buckets are of different stacks. */
  lemma BucketFor(stacks: seq<seq<Frame>>, buckets: seq<Bucket>, i: nat) returns (k: nat)
    requires Counts(stacks, buckets) && i < |stacks|
    ensures k < |buckets| && SameStack(stacks[i], buckets[k].frames)
  {
    assert Keys(stacks)[i] == KeyOf(stacks[i]);
    assert HasBucket(buckets, KeyOf(stacks[i]));
    k :| 0 <= k < |buckets| && KeyOf(buckets[k].frames) == KeyOf(stacks[i]);
    SameIsKey(stacks[i], buckets[k].frames);
  }

  lemma OtherBucket(stacks: seq<seq<Frame>>, buckets: seq<Bucket>, k: nat, l: nat)
    requires Counts(stacks, buckets) && k < l < |buckets|
    ensures !SameStack(buckets[k].frames, buckets[l].frames)
  {
    SameIsKey(buckets[k].frames, buckets[l].frames);
  }

  /** Buckets that hold the same stacks in the same places. */
  lemma BucketsStay(buckets: seq<Bucket>, buckets': seq<Bucket>)
    requires |buckets| <= |buckets'| && forall k :: 0 <= k < |buckets| ==> buckets'[k].frames == buckets[k].frames
    ensures forall key :: HasBucket(buckets, key) ==> HasBucket(buckets', key)
    ensures forall k :: 0 <= k < |buckets'| ==> HasBucket(buckets', KeyOf(buckets'[k].frames))
  {
    hide KeyOf;
    forall key | HasBucket(buckets, key) ensures HasBucket(buckets', key) {
      var k :| 0 <= k < |buckets| && KeyOf(buckets[k].frames) == key;
      assert KeyOf(buckets'[k].frames) == key;
    }
  }

  lemma NewBucket(stacks: seq<seq<Frame>>, buckets: seq<Bucket>, frames: seq<Frame>)
    requires Counts(stacks, buckets)
    requires forall j :: 0 <= j < |buckets| ==> KeyOf(buckets[j].frames) != KeyOf(frames)
    ensures Counts(stacks + [frames], buckets + [Bucket(frames, 1)])
  {
    hide KeyOf, IsFirst, FirstAt, Occurrences, Keys;
    var buckets' := buckets + [Bucket(frames, 1)];
    assert !HasBucket(buckets, KeyOf(frames));
    hide HasBucket;
    OccurrencesSnoc(stacks, frames);
    FirstSnoc(stacks, frames);
    BucketsStay(buckets, buckets');
    assert buckets'[|buckets|].frames == frames;
    assert buckets'[..|buckets|] == buckets;
  }

  lemma SameBucket(stacks: seq<seq<Frame>>, buckets: seq<Bucket>, frames: seq<Frame>, k: nat)
    requires Counts(stacks, buckets) && k < |buckets| && KeyOf(buckets[k].frames) == KeyOf(frames)
    ensures Counts(stacks + [frames], buckets[k := buckets[k].(count := buckets[k].count + 1)])
  {
    hide KeyOf, IsFirst, FirstAt, Occurrences, Keys, HasBucket;
    var buckets' := buckets[k := buckets[k].(count := buckets[k].count + 1)];
    OccurrencesSnoc(stacks, frames);
    FirstSnoc(stacks, frames);
    BucketsStay(buckets, buckets');
    assert KeyOf(buckets'[k].frames) == KeyOf(frames);
    TotalUpdate(buckets, k);
  }

  lemma {:induction false} TotalUpdate(buckets: seq<Bucket>, k: nat)
    requires k < |buckets|
    ensures Total(buckets[k := buckets[k].(count := buckets[k].count + 1)]) == Total(buckets) + 1
  {
    var last := |buckets| - 1;
    var buckets' := buckets[k := buckets[k].(count := buckets[k].count + 1)];
    if k == last {
      assert buckets'[..last] == buckets[..last];
    } else {
      TotalUpdate(buckets[..last], k);
      assert buckets'[..last] == buckets[..last][k := buckets'[k]];
    }
  }

  // --- PrintFrames ---

  function Header(idle: nat, failed: nat): seq<string> {
    (if idle > 0 then ["(idle) " + Decimal(idle)] else []) + if failed > 0 then ["(failed) " + Decimal(failed)] else []
  }

  function BucketLines(buckets: seq<Bucket>, withLine: bool): (lines: seq<string>)
    requires forall k :: 0 <= k < |buckets| ==> buckets[k].frames != []
    ensures |lines| == |buckets|
  {
    seq(|buckets|, k requires 0 <= k < |buckets| => BucketLine(buckets[k].frames, buckets[k].count, withLine))
  }

  /** The reverse iteration over one stack. */
  method PrintStack(frames: seq<Frame>, withLine: bool) returns (text: string)
    requires frames != []
    ensures text == StackText(frames, withLine)
  {
    hide FrameText;
    text := "";
    var i := |frames| - 1;
    assert frames[..i + 1] == frames;
    while i > 0
      invariant 0 <= i < |frames|
      invariant text + StackText(frames[..i + 1], withLine) == StackText(frames, withLine)
    {
      assert frames[..i + 1][..i] == frames[..i];
      ghost var before := text;
      text := text + FrameText(frames[i], withLine);
      text := text + ";";
      Append(before, FrameText(frames[i], withLine) + ";", StackText(frames[..i], withLine));
      Append(FrameText(frames[i], withLine), ";", StackText(frames[..i], withLine));
      i := i - 1;
    }
    assert frames[..1] == [frames[0]];
    text := text + FrameText(frames[0], withLine);
  }

  /** PrintFrames gives up, with the lines so far, at a bucket of the empty stack;
      otherwise there is one line for each bucket after the header. */
  method PrintFrames(h: Hasher, records: seq<Record>, idle: nat, failed: nat, withLine: bool)
    returns (lines: seq<string>, fatal: bool, ghost buckets: seq<Bucket>)
    ensures Counts(Stacks(records), buckets)
    ensures fatal <==> [] in Stacks(records)
    ensures !fatal ==>
      && (forall k :: 0 <= k < |buckets| ==> buckets[k].frames != [])
      && lines == Header(idle, failed) + BucketLines(buckets, withLine)
  {
    hide StackText, Decimal, BucketLine, Counts;
    lines := [];
    if idle > 0 {
      lines := lines + ["(idle) " + Decimal(idle)];
    }
    if failed > 0 {
      lines := lines + ["(failed) " + Decimal(failed)];
    }
    var filled := FillBuckets(h, records);
    buckets := filled;
    EmptyIsCounted(records, buckets);
    for k := 0 to |filled|
      invariant forall j :: 0 <= j < k ==> filled[j].frames != []
      invariant lines == Header(idle, failed) + BucketLines(filled[..k], withLine)
    {
      if filled[k].frames == [] {
        return lines, true, buckets;
      }
      var text := PrintStack(filled[k].frames, withLine);
      assert text + " " + Decimal(filled[k].count) == BucketLine(filled[k].frames, filled[k].count, withLine) by {
        LineOf(filled[k].frames, filled[k].count, withLine);
      }
      assert BucketLines(filled[..k + 1], withLine)
          == BucketLines(filled[..k], withLine) + [text + " " + Decimal(filled[k].count)];
      lines := lines + [text + " " + Decimal(filled[k].count)];
    }
    assert filled[..|filled|] == filled;
    fatal := false;
  }

  /** The header lines and one line for each bucket, with its count after its stack. */
  lemma LinesMean(lines: seq<string>, idle: nat, failed: nat, buckets: seq<Bucket>, withLine: bool)
    requires forall k :: 0 <= k < |buckets| ==> buckets[k].frames != []
    requires lines == Header(idle, failed) + BucketLines(buckets, withLine)
    ensures |lines| == (if idle > 0 then 1 else 0) + (if failed > 0 then 1 else 0) + |buckets|
    ensures idle > 0 ==> lines[0] == "(idle) " + Decimal(idle)
    ensures failed > 0 ==> lines[if idle > 0 then 1 else 0] == "(failed) " + Decimal(failed)
    ensures forall k :: 0 <= k < |buckets| ==>
      lines[|lines| - |buckets| + k] == StackText(buckets[k].frames, withLine) + " " + Decimal(buckets[k].count)
  {
    hide StackText, Decimal, BucketLine;
    forall k | 0 <= k < |buckets|
      ensures lines[|lines| - |buckets| + k] == StackText(buckets[k].frames, withLine) + " " + Decimal(buckets[k].count)
    {
      LineOf(buckets[k].frames, buckets[k].count, withLine);
    }
  }

  lemma LineOf(frames: seq<Frame>, count: nat, withLine: bool)
    requires frames != []
    ensures BucketLine(frames, count, withLine) == StackText(frames, withLine) + " " + Decimal(count)
  {
  }

  lemma EmptyIsCounted(records: seq<Record>, buckets: seq<Bucket>)
    requires Counts(Stacks(records), buckets)
    ensures [] in Stacks(records) <==> exists k :: 0 <= k < |buckets| && buckets[k].frames == []
  {
    if [] in Stacks(records) {
      var i :| 0 <= i < |records| && Stacks(records)[i] == [];
      assert Keys(Stacks(records))[i] == KeyOf([]);
      assert HasBucket(buckets, KeyOf([]));
      var k :| 0 <= k < |buckets| && KeyOf(buckets[k].frames) == KeyOf([]);
      assert |KeyOf(buckets[k].frames)| == 0;
    }
  }

  /** With line numbers and no colon in any file or function name, no two entries
      are equal. */
  lemma UniqueLines(stacks: seq<seq<Frame>>, buckets: seq<Bucket>, idle: nat, failed: nat)
    requires Counts(stacks, buckets)
    requires forall i :: 0 <= i < |stacks| ==> stacks[i] != [] && ColonFree(stacks[i])
    ensures var lines := Header(idle, failed) + BucketLines(buckets, true);
      forall i, j :: 0 <= i < j < |lines| ==> lines[i] != lines[j]
  {
    hide BucketLine, KeyOf, ColonFree, IsFirst, Occurrences, HasBucket, Free;
    var header, body := Header(idle, failed), BucketLines(buckets, true);
    forall i, j | 0 <= i < j < |body| ensures body[i] != body[j] {
      assert KeyOf(buckets[i].frames) != KeyOf(buckets[j].frames);
      if body[i] == body[j] {
        TextDetermines(buckets[i].frames, buckets[j].frames, buckets[i].count, buckets[j].count);
      }
    }
    HeaderHasNoColon(idle);
    HeaderHasNoColon(failed);
    forall i, j | 0 <= i < |header| && 0 <= j < |body| ensures header[i] != body[j] {
      LineHasColon(buckets[j].frames, buckets[j].count);
    }
    assert |header| == 2 ==> header[0][1] == 'i' && header[1][1] == 'f';
  }

  lemma LineHasColon(frames: seq<Frame>, count: nat)
    requires frames != []
    ensures !Free(BucketLine(frames, count, true), ':')
  {
    LineParts(frames, count);
    assert BucketLine(frames, count, true)[|frames[|frames| - 1].file|] == ':';
  }

  /** What is printed, with a newline after each entry, has no two equal lines if
      there is no newline in any name either. */
  lemma UniqueOutput(stacks: seq<seq<Frame>>, buckets: seq<Bucket>, idle: nat, failed: nat)
    requires Counts(stacks, buckets)
    requires forall i :: 0 <= i < |stacks| ==> stacks[i] != [] && ColonFree(stacks[i]) && NewlineFree(stacks[i])
    ensures forall k :: 0 <= k < |buckets| ==> buckets[k].frames != []
    ensures var output := LinesOf(Unlines(Header(idle, failed) + BucketLines(buckets, true)));
      && |output| == |Header(idle, failed)| + |buckets|
      && forall i, j :: 0 <= i < j < |output| ==> output[i] != output[j]
  {
    hide Counts, BucketLine, Header, ColonFree, NewlineFree;
    FirstBuckets(stacks, buckets);
    UniqueLines(stacks, buckets, idle, failed);
    var header, body := Header(idle, failed), BucketLines(buckets, true);
    HeaderFree(idle, failed);
    forall k | 0 <= k < |body| ensures Free(body[k], '\n') {
      LineFree(buckets[k].frames, buckets[k].count);
    }
    var lines := header + body;
    LinesOfUnlines(lines);
    var output := LinesOf(Unlines(lines));
    forall i, j | 0 <= i < j < |output| ensures output[i] != output[j] {
      assert output[i][..|lines[i]|] == lines[i] && output[j][..|lines[j]|] == lines[j];
      assert |output[i]| == |lines[i]| + 1 && |output[j]| == |lines[j]| + 1;
    }
  }

  lemma LineFree(frames: seq<Frame>, count: nat)
    requires frames != [] && NewlineFree(frames)
    ensures Free(BucketLine(frames, count, true), '\n')
  {
    hide StackText, NewlineFree;
    StackTextFree(frames, true);
    ParseDecimal(count);
  }

  lemma HeaderFree(idle: nat, failed: nat)
    ensures forall i :: 0 <= i < |Header(idle, failed)| ==> Free(Header(idle, failed)[i], '\n')
  {
    ParseDecimal(idle);
    ParseDecimal(failed);
  }

  /** With a newline in two names, two lines of the output can be equal. */
  lemma LinesRepeatWithNewlines() returns (stacks: seq<seq<Frame>>, buckets: seq<Bucket>)
    ensures Counts(stacks, buckets) && |buckets| == 2
    ensures forall k :: 0 <= k < |buckets| ==> buckets[k].frames != [] && ColonFree(buckets[k].frames)
    ensures var output := LinesOf(Unlines(BucketLines(buckets, true)));
      |output| == 4 && output[1] == output[3]
  {
    var f, g := [Frame("a", Halves("x", "y"), 1)], [Frame("b", Halves("z", "y"), 1)];
    stacks, buckets := [f, g], [Bucket(f, 1), Bucket(g, 1)];
    TwoStacks(f, g);
    SmallLine("a", "x", "y");
    SmallLine("b", "z", "y");
    SmallFree("a", "x", "y");
    SmallFree("b", "z", "y");
    hide Counts, StackText, BucketLine, FrameText, Decimal, Unlines, LinesOf, Halves, ColonFree;
    FourLines("a" + ":" + "x", "y" + ":1 1", "b" + ":" + "z", "y" + ":1 1");
    assert BucketLines(buckets, true) == [Halves("a" + ":" + "x", "y" + ":1 1"), Halves("b" + ":" + "z", "y" + ":1 1")];
  }

  lemma SmallFree(file: string, x: string, y: string)
    ensures Free(file, ':') && Free(x, ':') && Free(y, ':') ==> ColonFree([Frame(file, Halves(x, y), 1)])
  {
  }

  lemma SmallLine(file: string, x: string, y: string)
    ensures BucketLine([Frame(file, Halves(x, y), 1)], 1, true) == Halves(file + ":" + x, y + ":1 1")
  {
    var f := Frame(file, Halves(x, y), 1);
    assert Decimal(1) == "1";
    assert StackText([f], true) == FrameText(f, true) + "";
  }

  function Halves(a: string, b: string): string { a + "\n" + b }

  /** Two entries with a newline in each are read as four lines. */
  lemma FourLines(a: string, b: string, c: string, d: string)
    requires Free(a, '\n') && Free(b, '\n') && Free(c, '\n') && Free(d, '\n')
    ensures var output := LinesOf(Unlines([Halves(a, b), Halves(c, d)]));
      |output| == 4 && output[1] == b + "\n" && output[3] == d + "\n"
  {
    TwoUnlines(a, b, [c, d]);
    TwoUnlines(c, d, []);
    TwoUnlines(Halves(a, b), Halves(c, d), []);
    assert [a, b] + [c, d] == [a, b, c, d] && [c, d] + [] == [c, d];
    assert [Halves(a, b), Halves(c, d)] + [] == [Halves(a, b), Halves(c, d)];
    LinesOfUnlines([a, b, c, d]);
  }

  lemma TwoUnlines(a: string, b: string, rest: seq<string>)
    ensures Unlines([a, b] + rest) == a + "\n" + b + "\n" + Unlines(rest)
  {
    assert ([a, b] + rest)[1..] == [b] + rest && ([b] + rest)[1..] == rest;
  }

  lemma HeaderHasNoColon(n: nat)
    ensures Free("(idle) " + Decimal(n), ':') && Free("(failed) " + Decimal(n), ':')
  {
    ParseDecimal(n);
  }

  /** Without line numbers all lines are distinct exactly when no two different
      stacks with the same names occur equally often. Only the first of several
      stacks that are the same is printed, so only its names count. */
  lemma UniqueLinesWithoutNumbers(stacks: seq<seq<Frame>>, buckets: seq<Bucket>)
    requires Counts(stacks, buckets)
    requires forall i :: 0 <= i < |stacks| ==> stacks[i] != [] && ColonFree(stacks[i]) && SemicolonFree(stacks[i])
    ensures forall k :: 0 <= k < |buckets| ==> buckets[k].frames != []
    ensures var body := BucketLines(buckets, false);
      (forall k, l :: 0 <= k < l < |body| ==> body[k] != body[l]) <==>
      forall i, j :: 0 <= i < j && FirstAt(stacks, i) && FirstAt(stacks, j) && SameNames(stacks[i], stacks[j]) ==>
        Occurrences(stacks, stacks[i]) != Occurrences(stacks, stacks[j])
  {
    hide ColonFree, SemicolonFree, SameNames, Occurrences, KeyOf, BucketLine, Counts, FirstAt;
    FirstBuckets(stacks, buckets);
    var body := BucketLines(buckets, false);
    if i, j :| 0 <= i < j && FirstAt(stacks, i) && FirstAt(stacks, j) && SameNames(stacks[i], stacks[j])
               && Occurrences(stacks, stacks[i]) == Occurrences(stacks, stacks[j]) {
      var k := BucketOf(stacks, buckets, i);
      var l := BucketOf(stacks, buckets, j);
      FirstsDiffer(stacks, i, j);
      LineDeterminesNames(stacks[i], stacks[j], buckets[k].count, buckets[l].count);
      assert body[k] == body[l] && k != l;
      assert if k < l then body[k] == body[l] else body[l] == body[k];
    } else {
      forall k, l | 0 <= k < l < |body| ensures body[k] != body[l] {
        LineDeterminesNames(buckets[k].frames, buckets[l].frames, buckets[k].count, buckets[l].count);
        if body[k] == body[l] {
          var i := FirstOf(stacks, buckets, k);
          var j := FirstOf(stacks, buckets, l);
          ApartBuckets(stacks, buckets, k, l);
          SameNamesBack(stacks[i], stacks[j]);
          assert false;
        }
      }
    }
  }

  lemma FirstBuckets(stacks: seq<seq<Frame>>, buckets: seq<Bucket>)
    requires Counts(stacks, buckets)
    ensures forall k :: 0 <= k < |buckets| ==> buckets[k].frames in stacks
  {
  }

  lemma BucketOf(stacks: seq<seq<Frame>>, buckets: seq<Bucket>, i: nat) returns (k: nat)
    requires Counts(stacks, buckets) && FirstAt(stacks, i)
    ensures k < |buckets| && buckets[k] == Bucket(stacks[i], Occurrences(stacks, stacks[i]))
  {
    assert Keys(stacks)[i] == KeyOf(stacks[i]);
    assert HasBucket(buckets, KeyOf(stacks[i]));
    k :| 0 <= k < |buckets| && KeyOf(buckets[k].frames) == KeyOf(stacks[i]);
    var j := FirstOf(stacks, buckets, k);
    assert j == i;
  }

  lemma FirstOf(stacks: seq<seq<Frame>>, buckets: seq<Bucket>, k: nat) returns (i: nat)
    requires Counts(stacks, buckets) && k < |buckets|
    ensures FirstAt(stacks, i) && i < |stacks| && stacks[i] == buckets[k].frames
    ensures buckets[k].count == Occurrences(stacks, stacks[i])
  {
    assert IsFirst(stacks, buckets[k].frames);
    i :| FirstAt(stacks, i) && stacks[i] == buckets[k].frames;
  }

  lemma FirstsDiffer(stacks: seq<seq<Frame>>, i: nat, j: nat)
    requires FirstAt(stacks, i) && FirstAt(stacks, j) && i != j
    ensures i < |stacks| && j < |stacks| && stacks[i] != stacks[j]
  {
  }

  lemma ApartBuckets(stacks: seq<seq<Frame>>, buckets: seq<Bucket>, k: nat, l: nat)
    requires Counts(stacks, buckets) && k < l < |buckets|
    ensures buckets[k].frames != buckets[l].frames
  {
  }

  lemma SameNamesBack(a: seq<Frame>, b: seq<Frame>)
    ensures SameNames(a, b) <==> SameNames(b, a)
  {
  }

  /** There are such pairs. */
  lemma LinesRepeatWithoutNumbers() returns (stacks: seq<seq<Frame>>, buckets: seq<Bucket>)
    ensures Counts(stacks, buckets) && |buckets| == 2
    ensures forall k :: 0 <= k < |buckets| ==> buckets[k].frames != [] && ColonFree(buckets[k].frames)
    ensures BucketLines(buckets, false)[0] == BucketLines(buckets, false)[1]
  {
    var f, g := [Frame("a", "b", 1)], [Frame("a", "b", 2)];
    stacks, buckets := [f, g], [Bucket(f, 1), Bucket(g, 1)];
    TwoStacks(f, g);
    assert StackText(f, false) == FrameText(f[0], false) + "" && StackText(g, false) == FrameText(g[0], false) + "";
    assert BucketLines(buckets, false)[0] == BucketLines(buckets, false)[1];
  }

  /** A colon in a name can have the same effect with line numbers. */
  lemma LinesRepeatWithColons() returns (stacks: seq<seq<Frame>>, buckets: seq<Bucket>)
    ensures Counts(stacks, buckets) && |buckets| == 2
    ensures forall k :: 0 <= k < |buckets| ==> buckets[k].frames != []
    ensures BucketLines(buckets, true)[0] == BucketLines(buckets, true)[1]
  {
    var f, g := [Frame("a:b", "c", 1)], [Frame("a", "b:c", 1)];
    stacks, buckets := [f, g], [Bucket(f, 1), Bucket(g, 1)];
    TwoStacks(f, g);
    assert FrameText(f[0], true) == "a:b:c" + (":" + Decimal(1)) == FrameText(g[0], true);
    assert StackText(f, true) == FrameText(f[0], true) + "" && StackText(g, true) == FrameText(g[0], true) + "";
    assert BucketLines(buckets, true)[0] == BucketLines(buckets, true)[1];
  }

  lemma TwoStacks(f: seq<Frame>, g: seq<Frame>)
    requires |f| == |g| == 1 && (f[0].file != g[0].file || f[0].line != g[0].line)
    ensures Counts([f, g], [Bucket(f, 1), Bucket(g, 1)])
  {
    assert KeyOf(f)[0] != KeyOf(g)[0];
    hide Counts, KeyOf;
    CountsNone();
    NewBucket([], [], f);
    assert [] + [f] == [f] && [] + [Bucket(f, 1)] == [Bucket(f, 1)];
    NewBucket([f], [Bucket(f, 1)], g);
    assert [] + [f] + [g] == [f, g] && [] + [Bucket(f, 1)] + [Bucket(g, 1)] == [Bucket(f, 1), Bucket(g, 1)];
  }

  // --- PrintFramesTS ---

  /** The second line of a record. */
  function RecordText(frames: seq<Frame>, withLine: bool): string {
    if frames == [] then "(idle)"
    else if |frames| == 1 && frames[0].file == "(failed)" then "(failed)"
    else Terminated(Outermost(frames, withLine), ';')
  }

  /** The printed frames of a stack, outermost first. */
  function Outermost(frames: seq<Frame>, withLine: bool): (texts: seq<string>)
    ensures |texts| == |frames|
  {
    seq(|frames|, i requires 0 <= i < |frames| => FrameText(frames[|frames| - 1 - i], withLine))
  }

  function RecordLines(records: seq<Record>, withLine: bool): (lines: seq<string>)
    ensures |lines| == 2 * |records|
  {
    if records == [] then []
    else RecordLines(records[..|records| - 1], withLine)
         + [Decimal(records[|records| - 1].ts), RecordText(records[|records| - 1].frames, withLine)]
  }

  /** The line of a record: a mark, or its frames, outermost first, each with a
      semicolon after it. */
  lemma RecordTextMeans(frames: seq<Frame>, withLine: bool) returns (texts: seq<string>)
    ensures frames == [] ==> RecordText(frames, withLine) == "(idle)"
    ensures |frames| == 1 && frames[0].file == "(failed)" ==> RecordText(frames, withLine) == "(failed)"
    ensures frames != [] && !(|frames| == 1 && frames[0].file == "(failed)") ==> RecordText(frames, withLine) == Terminated(texts, ';')
    ensures |texts| == |frames| && forall j :: 0 <= j < |texts| ==>
      var f := frames[|frames| - 1 - j];
      texts[j] == f.file + ":" + f.name + if withLine then ":" + Decimal(f.line) else ""
  {
    texts := Outermost(frames, withLine);
    hide FrameText, Decimal;
    forall j | 0 <= j < |texts|
      ensures var f := frames[|frames| - 1 - j]; texts[j] == f.file + ":" + f.name + if withLine then ":" + Decimal(f.line) else ""
    {
      FrameTextMeans(frames[|frames| - 1 - j], withLine);
    }
  }

  /** PrintFramesTS writes a timestamp and a stack for every record. */
  method PrintFramesTS(records: seq<Record>, withLine: bool) returns (lines: seq<string>)
    ensures lines == RecordLines(records, withLine)
  {
    hide Terminated, Outermost, Decimal, FrameText;
    lines := [];
    for n := 0 to |records|
      invariant lines == RecordLines(records[..n], withLine)
    {
      var frames := records[n].frames;
      assert records[..n + 1][..n] == records[..n];
      lines := lines + [Decimal(records[n].ts)];
      if frames == [] {
        lines := lines + ["(idle)"];
      } else if |frames| == 1 && frames[0].file == "(failed)" {
        lines := lines + ["(failed)"];
      } else {
        var text := PrintTerminated(frames, withLine);
        lines := lines + [text];
      }
    }
    assert records[..|records|] == records;
  }

  /** A line with the timestamp and a line with the stack, for every record in turn. */
  lemma AllRecordLines(records: seq<Record>, withLine: bool)
    ensures var lines := RecordLines(records, withLine);
      forall k :: 0 <= k < |records| ==>
        lines[2 * k] == Decimal(records[k].ts) && lines[2 * k + 1] == RecordText(records[k].frames, withLine)
  {
    hide RecordLines, Decimal, RecordText;
    forall k | 0 <= k < |records|
      ensures RecordLines(records, withLine)[2 * k] == Decimal(records[k].ts)
      ensures RecordLines(records, withLine)[2 * k + 1] == RecordText(records[k].frames, withLine)
    {
      RecordLinesAt(records, withLine, k);
    }
  }

  lemma {:induction false} RecordLinesAt(records: seq<Record>, withLine: bool, k: nat)
    requires k < |records|
    ensures RecordLines(records, withLine)[2 * k] == Decimal(records[k].ts)
    ensures RecordLines(records, withLine)[2 * k + 1] == RecordText(records[k].frames, withLine)
  {
    if k < |records| - 1 {
      RecordLinesAt(records[..|records| - 1], withLine, k);
    }
  }

  method PrintTerminated(frames: seq<Frame>, withLine: bool) returns (text: string)
    ensures text == Terminated(Outermost(frames, withLine), ';')
    ensures exists texts :: |texts| == |frames| && text == Terminated(texts, ';') && forall j :: 0 <= j < |texts| ==>
      var f := frames[|frames| - 1 - j];
      texts[j] == f.file + ":" + f.name + if withLine then ":" + Decimal(f.line) else ""
  {
    hide FrameText;
    ghost var plain := RecordTextMeans(frames, withLine);
    ghost var texts := Outermost(frames, withLine);
    text := "";
    var i := |frames|;
    while i > 0
      invariant 0 <= i <= |frames| && text == Terminated(texts[..|frames| - i], ';')
    {
      i := i - 1;
      TerminatedMeans(texts[..|frames| - i - 1], texts[|frames| - i - 1], ';');
      assert texts[..|frames| - i] == texts[..|frames| - i - 1] + [texts[|frames| - i - 1]];
      text := text + FrameText(frames[i], withLine);
      text := text + ";";
    }
    assert texts[..|frames|] == texts;
    PlainTexts(frames, withLine, plain);
  }

  lemma PlainTexts(frames: seq<Frame>, withLine: bool, texts: seq<string>)
    requires |texts| == |frames| && forall j :: 0 <= j < |texts| ==>
      var f := frames[|frames| - 1 - j];
      texts[j] == f.file + ":" + f.name + if withLine then ":" + Decimal(f.line) else ""
    ensures texts == Outermost(frames, withLine)
  {
    hide FrameText, Decimal;
    forall j | 0 <= j < |texts| ensures texts[j] == Outermost(frames, withLine)[j] {
      FrameTextMeans(frames[|frames| - 1 - j], withLine);
    }
  }

  // --- ProbeLoop ---

  datatype Config = Config(includeIdle: bool, includeTs: bool, includeLine: bool)

  /** What GetThreads comes to: threads, a PtraceException or another exception. */
  datatype Attempt = Threads(threads: seq<Thread>) | Failure(text: string) | Other

  /** One iteration as it is given: the time, whether the end of the run is reached
      by then, and what GetThreads would come to. */
  datatype Sample = Sample(now: nat, expired: bool, attempt: Attempt)

  /** One iteration as it went: the threads it got and the PtraceException it
      caught. It can have both. */
  datatype Turn = Turn(now: nat, taken: Option<seq<Thread>>, error: Option<string>)

  datatype Run = Run(records: seq<Record>, idle: nat, failed: nat)

  const NO_PEEK := "Failed to PTRACE_PEEKDATA"
  const NO_RESUME := "Failed to continue or to interrupt"

  /** The threads of all turns that got them, one after the other. */
  function AllThreads(turns: seq<Turn>): seq<Thread> {
    if turns == [] then []
    else
      var last := turns[|turns| - 1];
      AllThreads(turns[..|turns| - 1]) + if last.taken.Some? then last.taken.value else []
  }

  function IdleTurns(turns: seq<Turn>): nat {
    if turns == [] then 0
    else IdleTurns(turns[..|turns| - 1]) + if turns[|turns| - 1].taken == Some([]) then 1 else 0
  }

  function FailedTurns(turns: seq<Turn>): nat {
    if turns == [] then 0
    else FailedTurns(turns[..|turns| - 1]) + if turns[|turns| - 1].error.Some? then 1 else 0
  }

  /** The records of one turn: its threads, and with timestamps one for being idle
      and one for a failure. */
  function TurnRecords(turn: Turn, cfg: Config): seq<Record> {
    (if cfg.includeTs && cfg.includeIdle && turn.taken == Some([]) then [Record(turn.now, [])] else [])
    + (if turn.taken.Some? then ThreadRecords(turn.now, turn.taken.value) else [])
    + (if cfg.includeTs && turn.error.Some? then [Record(turn.now, [Frame("(failed)", turn.error.value, 0)])] else [])
  }

  function RecordsOf(turns: seq<Turn>, cfg: Config): seq<Record> {
    if turns == [] then [] else RecordsOf(turns[..|turns| - 1], cfg) + TurnRecords(turns[|turns| - 1], cfg)
  }

  ghost predicate Accounts(run: Run, turns: seq<Turn>, cfg: Config) {
    && run.records == RecordsOf(turns, cfg)
    && run.idle == (if cfg.includeIdle then IdleTurns(turns) else 0)
    && run.failed == FailedTurns(turns)
  }

  /** Nothing is lost and nothing counted twice. Without timestamps the records are
      the stacks of all threads that were taken, in order; with timestamps there is
      a record more for each idle and each failed turn. */
  lemma Conservation(run: Run, turns: seq<Turn>, cfg: Config)
    requires Accounts(run, turns, cfg)
    ensures cfg.includeTs ==> |run.records| == |AllThreads(turns)| + run.idle + run.failed
    ensures !cfg.includeTs ==> Stacks(run.records) == StacksOfThreads(AllThreads(turns))
  {
    hide RecordsOf, AllThreads;
    if cfg.includeTs {
      RecordsNumber(turns, cfg);
    } else {
      RecordsAreStacks(turns, cfg);
    }
  }

  lemma {:induction false} RecordsNumber(turns: seq<Turn>, cfg: Config)
    requires cfg.includeTs
    ensures |RecordsOf(turns, cfg)| == |AllThreads(turns)| + (if cfg.includeIdle then IdleTurns(turns) else 0) + FailedTurns(turns)
  {
    if turns != [] {
      RecordsNumber(turns[..|turns| - 1], cfg);
    }
  }

  lemma {:induction false} RecordsAreStacks(turns: seq<Turn>, cfg: Config)
    requires !cfg.includeTs
    ensures Stacks(RecordsOf(turns, cfg)) == StacksOfThreads(AllThreads(turns))
  {
    if turns != [] {
      hide Stacks, StacksOfThreads, ThreadRecords;
      var front, last := turns[..|turns| - 1], turns[|turns| - 1];
      var threads := if last.taken.Some? then last.taken.value else [];
      RecordsAreStacks(front, cfg);
      StacksOfTurn(last, threads, cfg);
      StacksConcat(RecordsOf(front, cfg), TurnRecords(last, cfg));
      ThreadStacksConcat(AllThreads(front), threads);
    } else {
      assert Stacks(RecordsOf(turns, cfg)) == StacksOfThreads(AllThreads(turns));
    }
  }

  lemma StacksOfTurn(turn: Turn, threads: seq<Thread>, cfg: Config)
    requires !cfg.includeTs && threads == if turn.taken.Some? then turn.taken.value else []
    ensures Stacks(TurnRecords(turn, cfg)) == StacksOfThreads(threads)
  {
    assert TurnRecords(turn, cfg) == ThreadRecords(turn.now, threads);
    assert Stacks(ThreadRecords(turn.now, threads)) == StacksOfThreads(threads);
  }

  lemma ThreadStacksConcat(a: seq<Thread>, b: seq<Thread>)
    ensures StacksOfThreads(a + b) == StacksOfThreads(a) + StacksOfThreads(b)
  {
  }

  lemma StacksConcat(a: seq<Record>, b: seq<Record>)
    ensures Stacks(a + b) == Stacks(a) + Stacks(b)
  {
  }

  function StacksOfThreads(threads: seq<Thread>): (stacks: seq<seq<Frame>>)
    ensures |stacks| == |threads|
  {
    seq(|threads|, i requires 0 <= i < |threads| => threads[i].frames)
  }

  // --- What a run has to be ---

  /** A target as a sample finds it: its state and what waitpid will report. */
  datatype Point = Point(state: Session.RunState, events: seq<Session.WaitStatus>)

  /** GetThreads succeeds: on a target that runs its first peek would fail. */
  predicate Takes(p: Point, sample: Sample) {
    p.state == Session.Stopped && sample.attempt.Threads?
  }

  /** The target is let run until the next sample. */
  predicate GoesOn(p: Point, sample: Sample) { Takes(p, sample) && !sample.expired }

  /** The run ends: at its deadline after threads were taken, when the target
      exits, or by an exception that is not a PtraceException. */
  predicate Ends(p: Point, sample: Sample) {
    && p.state == Session.Stopped
    && (sample.attempt.Other?
        || (sample.attempt.Threads? && (sample.expired || Session.Verdict(p.events) == Session.TerminateError)))
  }

  /** The PtraceException that is caught. */
  function Caught(p: Point, sample: Sample): Option<string> {
    if p.state != Session.Stopped then Some(NO_PEEK)
    else if sample.attempt.Failure? then Some(sample.attempt.text)
    else if GoesOn(p, sample) && Session.Verdict(p.events) == Session.PtraceError then Some(NO_RESUME)
    else None
  }

  function TurnOf(p: Point, sample: Sample): Turn {
    Turn(sample.now, if Takes(p, sample) then Some(sample.attempt.threads) else None, Caught(p, sample))
  }

  function Next(p: Point, sample: Sample): Point {
    if GoesOn(p, sample) then Point(Session.AfterWait(Session.Running, p.events), Session.Pending(p.events)) else p
  }

  /** What the sample with number n finds. */
  function At(p: Point, samples: seq<Sample>, n: nat): Point
    requires n <= |samples|
  {
    if n == 0 then p else Next(At(p, samples, n - 1), samples[n - 1])
  }

  function TurnsOf(p: Point, samples: seq<Sample>, n: nat): (turns: seq<Turn>)
    requires n <= |samples|
    ensures |turns| == n
  {
    seq(n, k requires 0 <= k < n => TurnOf(At(p, samples, k), samples[k]))
  }

  /** The requests of one sample: the peeks of GetThreads, which count as one, and
      those of letting the target run. */
  function Uses(p: Point, sample: Sample): seq<Session.Use> {
    [Session.Use(Session.Peek, p.state == Session.Stopped)] + if GoesOn(p, sample) then Session.RunLog(p.events) else []
  }

  function UsesOf(p: Point, samples: seq<Sample>, n: nat): seq<Session.Use>
    requires n <= |samples|
  {
    if n == 0 then [] else UsesOf(p, samples, n - 1) + Uses(At(p, samples, n - 1), samples[n - 1])
  }

  /** They all find the target stopped exactly when every sample does. */
  lemma {:induction false} DisciplinedUses(p: Point, samples: seq<Sample>, n: nat)
    requires n <= |samples|
    ensures Session.Disciplined(UsesOf(p, samples, n)) <==> AlwaysStopped(p, samples, n)
  {
    hide Session.Disciplined, Uses, At;
    if n == 0 {
      NothingUndisciplined();
    } else {
      DisciplinedUses(p, samples, n - 1);
      var q, front := At(p, samples, n - 1), UsesOf(p, samples, n - 1);
      DisciplinedOne(q, samples[n - 1]);
      DisciplinedBoth(front, Uses(q, samples[n - 1]));
    }
  }

  lemma NothingUndisciplined()
    ensures Session.Disciplined([])
  {
  }

  lemma DisciplinedOne(p: Point, sample: Sample)
    ensures Session.Disciplined(Uses(p, sample)) <==> p.state == Session.Stopped
  {
    hide Session.RunLog;
    assert Uses(p, sample)[0] == Session.Use(Session.Peek, p.state == Session.Stopped);
  }

  lemma DisciplinedBoth(a: seq<Session.Use>, b: seq<Session.Use>)
    ensures Session.Disciplined(a + b) <==> Session.Disciplined(a) && Session.Disciplined(b)
  {
    assert forall i :: 0 <= i < |a| ==> (a + b)[i] == a[i];
    assert forall i :: 0 <= i < |b| ==> (a + b)[|a| + i] == b[i];
  }

  /** The run ends with the sample with number k. */
  predicate EndsAt(p: Point, samples: seq<Sample>, k: nat) {
    && k < |samples| && Ends(At(p, samples, k), samples[k])
    && forall j :: 0 <= j < k ==> !Ends(At(p, samples, j), samples[j])
  }

  predicate AlwaysStopped(p: Point, samples: seq<Sample>, n: nat)
    requires n <= |samples|
  {
    forall k :: 0 <= k < n ==> At(p, samples, k).state == Session.Stopped
  }

  /** When every sample finds the target stopped, the run ends exactly if one of
      them is past the deadline when it has got threads, or throws another
      exception. Samples that throw a PtraceException do not look at the time. */
  lemma EndOfRun(p: Point, samples: seq<Sample>)
    requires AlwaysStopped(p, samples, |samples|) && At(p, samples, |samples|).state == Session.Stopped
    ensures (exists k: nat :: EndsAt(p, samples, k)) <==>
      exists k :: 0 <= k < |samples| && (samples[k].attempt.Other? || (samples[k].attempt.Threads? && samples[k].expired))
  {
    if k: nat :| EndsAt(p, samples, k) {
      var q := At(p, samples, k);
      assert At(p, samples, k + 1) == Next(q, samples[k]);
      if samples[k].attempt.Threads? && !samples[k].expired {
        TerminationIsFinal(q.events);
        assert false;
      }
    } else if k :| 0 <= k < |samples| && (samples[k].attempt.Other? || (samples[k].attempt.Threads? && samples[k].expired)) {
      assert At(p, samples, k).state == Session.Stopped;
      FirstEnd(p, samples, k);
    }
  }

  lemma TerminationIsFinal(events: seq<Session.WaitStatus>)
    requires Session.Verdict(events) == Session.TerminateError
    ensures Session.AfterWait(Session.Running, events) == Session.Gone
  {
  }

  lemma {:induction false} FirstEnd(p: Point, samples: seq<Sample>, k: nat)
    requires k < |samples| && Ends(At(p, samples, k), samples[k])
    ensures exists j: nat :: EndsAt(p, samples, j)
  {
    if j :| 0 <= j < k && Ends(At(p, samples, j), samples[j]) {
      FirstEnd(p, samples, j);
    } else {
      assert EndsAt(p, samples, k);
    }
  }

  /** Once a sample finds the target running, or gone, every later one does, and
      fails: the run does not end any more. */
  lemma {:induction false} NeverAgain(p: Point, samples: seq<Sample>, k: nat, n: nat)
    requires k <= n < |samples| && At(p, samples, k).state != Session.Stopped
    ensures At(p, samples, n) == At(p, samples, k)
    ensures !Ends(At(p, samples, n), samples[n]) && Caught(At(p, samples, n), samples[n]) == Some(NO_PEEK)
    decreases n
  {
    if k < n {
      NeverAgain(p, samples, k, n - 1);
    }
  }

  /** The threads of the samples that succeed. */
  function Taken(p: Point, samples: seq<Sample>, n: nat): seq<Thread>
    requires n <= |samples|
  {
    if n == 0 then []
    else Taken(p, samples, n - 1) + if Takes(At(p, samples, n - 1), samples[n - 1]) then samples[n - 1].attempt.threads else []
  }

  lemma {:induction false} TakenInTurns(p: Point, samples: seq<Sample>, n: nat)
    requires n <= |samples|
    ensures AllThreads(TurnsOf(p, samples, n)) == Taken(p, samples, n)
  {
    hide Takes, Caught, At;
    if n > 0 {
      TakenInTurns(p, samples, n - 1);
      assert TurnsOf(p, samples, n)[..n - 1] == TurnsOf(p, samples, n - 1);
    }
  }

  /** A turn on a target that is not stopped fails. */
  lemma {:induction false} NoFailure(p: Point, samples: seq<Sample>, n: nat)
    requires n <= |samples| && FailedTurns(TurnsOf(p, samples, n)) == 0
    ensures AlwaysStopped(p, samples, n)
  {
    hide At, GoesOn;
    if n > 0 {
      assert TurnsOf(p, samples, n)[..n - 1] == TurnsOf(p, samples, n - 1);
      NoFailure(p, samples, n - 1);
    }
  }

  // --- What that comes to, sample by sample ---

  /** One sample: what it takes, the requests it makes, what it leaves, and the
      records it adds. The idle record comes first, then those of the threads, then
      that of the exception. */
  lemma OneSample(p: Point, samples: seq<Sample>, k: nat, cfg: Config)
    requires k < |samples|
    ensures
      var q, sample := At(p, samples, k), samples[k];
      var takes := q.state == Session.Stopped && sample.attempt.Threads?;
      var error := if q.state != Session.Stopped then Some(NO_PEEK)
        else if sample.attempt.Failure? then Some(sample.attempt.text)
        else if takes && !sample.expired && Session.Verdict(q.events) == Session.PtraceError then Some(NO_RESUME)
        else None;
      && At(p, samples, k + 1)
         == (if takes && !sample.expired then Point(Session.AfterWait(Session.Running, q.events), Session.Pending(q.events)) else q)
      && Taken(p, samples, k + 1) == Taken(p, samples, k) + (if takes then sample.attempt.threads else [])
      && UsesOf(p, samples, k + 1)
         == UsesOf(p, samples, k) + ([Session.Use(Session.Peek, q.state == Session.Stopped)]
              + if takes && !sample.expired
                then [Session.Use(Session.Cont, true)] + Session.Conts(Session.ChildStops(q.events)) else [])
      && RecordsOf(TurnsOf(p, samples, k + 1), cfg)
         == RecordsOf(TurnsOf(p, samples, k), cfg)
            + ((if cfg.includeTs && cfg.includeIdle && takes && sample.attempt.threads == [] then [Record(sample.now, [])] else [])
               + (if takes then seq(|sample.attempt.threads|, i requires 0 <= i < |sample.attempt.threads| =>
                                      Record(sample.now, sample.attempt.threads[i].frames)) else [])
               + (if cfg.includeTs && error.Some? then [Record(sample.now, [Frame("(failed)", error.value, 0)])] else []))
  {
    OneTurnMore(p, samples, k);
    TurnsSnoc(TurnsOf(p, samples, k), TurnOf(At(p, samples, k), samples[k]));
  }

  /** Before the first sample there is nothing. */
  lemma NoSample(p: Point, samples: seq<Sample>, cfg: Config)
    ensures At(p, samples, 0) == p && Taken(p, samples, 0) == [] && UsesOf(p, samples, 0) == []
    ensures RecordsOf(TurnsOf(p, samples, 0), cfg) == []
  {
  }

  lemma NoTurns(p: Point, samples: seq<Sample>)
    ensures FailedTurns(TurnsOf(p, samples, 0)) == IdleTurns(TurnsOf(p, samples, 0)) == 0
  {
  }

  lemma LastTurn(p: Point, samples: seq<Sample>, m: nat)
    requires m < |samples|
    ensures FailedTurns(TurnsOf(p, samples, m + 1))
      == FailedTurns(TurnsOf(p, samples, m)) + if Caught(At(p, samples, m), samples[m]).Some? then 1 else 0
    ensures IdleTurns(TurnsOf(p, samples, m + 1))
      == IdleTurns(TurnsOf(p, samples, m)) + if Takes(At(p, samples, m), samples[m]) && samples[m].attempt.threads == [] then 1 else 0
  {
    hide At, Caught;
    OneTurnMore(p, samples, m);
    TurnsSnoc(TurnsOf(p, samples, m), TurnOf(At(p, samples, m), samples[m]));
  }

  /** The failed turns are the samples that find the target running, those whose
      GetThreads throws a PtraceException, and those that are followed by a wait
      that throws one. */
  lemma {:induction false} FailedMeans(p: Point, samples: seq<Sample>, n: nat) returns (failed: set<nat>)
    requires n <= |samples|
    ensures |failed| == FailedTurns(TurnsOf(p, samples, n))
    ensures forall k: nat :: k in failed <==>
      && k < n
      && (|| At(p, samples, k).state != Session.Stopped || samples[k].attempt.Failure?
       || (samples[k].attempt.Threads? && !samples[k].expired && Session.Verdict(At(p, samples, k).events) == Session.PtraceError))
  {
    hide At, Session.Verdict, FailedTurns, IdleTurns, TurnsOf;
    failed := {};
    if n == 0 {
      NoTurns(p, samples);
    } else {
      failed := FailedMeans(p, samples, n - 1);
      LastTurn(p, samples, n - 1);
      if Caught(At(p, samples, n - 1), samples[n - 1]).Some? {
        failed := failed + {n - 1};
      }
    }
  }

  /** The idle turns are the samples that succeed with no thread. */
  lemma {:induction false} IdleMeans(p: Point, samples: seq<Sample>, n: nat) returns (idle: set<nat>)
    requires n <= |samples|
    ensures |idle| == IdleTurns(TurnsOf(p, samples, n))
    ensures forall k: nat :: k in idle <==> k < n && At(p, samples, k).state == Session.Stopped && samples[k].attempt == Threads([])
  {
    hide At, Caught, FailedTurns, IdleTurns, TurnsOf;
    idle := {};
    if n == 0 {
      NoTurns(p, samples);
    } else {
      idle := IdleMeans(p, samples, n - 1);
      LastTurn(p, samples, n - 1);
      if Takes(At(p, samples, n - 1), samples[n - 1]) && samples[n - 1].attempt.threads == [] {
        idle := idle + {n - 1};
      }
    }
  }

  /** The run ends with the first sample that throws another exception, or gets its
      threads past the deadline, or is followed by the exit of the target. */
  lemma EndsMeans(p: Point, samples: seq<Sample>, k: nat)
    ensures EndsAt(p, samples, k) <==>
      && k < |samples| && At(p, samples, k).state == Session.Stopped
      && (samples[k].attempt.Other?
          || (samples[k].attempt.Threads? && (samples[k].expired || Session.Verdict(At(p, samples, k).events) == Session.TerminateError)))
      && forall j :: 0 <= j < k ==>
           !(&& At(p, samples, j).state == Session.Stopped
             && (samples[j].attempt.Other?
                 || (samples[j].attempt.Threads?
                     && (samples[j].expired || Session.Verdict(At(p, samples, j).events) == Session.TerminateError))))
  {
  }

  // --- ProbeLoop itself ---

  /** The loop of ProbeLoop, over as many samples as are given: it goes through n of them, and
      ended is false when they run out first. What it has recorded is what the
      turns on these samples make, and its requests are those of the samples. */
  method SampleLoop(t: Session.Target, samples: seq<Sample>, cfg: Config)
    returns (run: Run, code: nat, ended: bool, ghost n: nat)
    modifies t
    ensures n <= |samples| && Accounts(run, TurnsOf(old(Now(t)), samples, n), cfg)
    ensures if ended then n > 0 && EndsAt(old(Now(t)), samples, n - 1)
            else n == |samples| && forall k: nat :: !EndsAt(old(Now(t)), samples, k)
    ensures code == if ended && samples[n - 1].attempt.Other? then 1 else 0
    ensures t.log == old(t.log) + UsesOf(old(Now(t)), samples, n)
    ensures run.failed == 0 ==> AlwaysStopped(old(Now(t)), samples, n)
  {
    hide Accounts, Ends, TurnOf, TurnsOf, Next, Uses;
    ghost var p := Now(t);
    run, code, ended, n := Run([], 0, 0), 0, false, 0;
    NothingYet(p, samples, cfg);
    for i := 0 to |samples|
      invariant n == i && !ended && code == 0
      invariant Now(t) == At(p, samples, i) && Accounts(run, TurnsOf(p, samples, i), cfg)
      invariant forall j :: 0 <= j < i ==> !Ends(At(p, samples, j), samples[j])
      invariant t.log == old(t.log) + UsesOf(p, samples, i)
    {
      run, code, ended := TakeTurn(t, samples[i], cfg, run, TurnsOf(p, samples, i));
      OneTurnMore(p, samples, i);
      n := n + 1;
      if ended {
        break;
      }
    }
    StoppedWithoutFailure(run, p, samples, n, cfg);
  }

  /** So the counters of a run count these samples. */
  lemma AccountsMean(run: Run, p: Point, samples: seq<Sample>, n: nat, cfg: Config) returns (failed: set<nat>, idle: set<nat>)
    requires n <= |samples| && Accounts(run, TurnsOf(p, samples, n), cfg)
    ensures run.failed == |failed|
    ensures forall k: nat :: k in failed <==>
      && k < n
      && (|| At(p, samples, k).state != Session.Stopped || samples[k].attempt.Failure?
       || (samples[k].attempt.Threads? && !samples[k].expired && Session.Verdict(At(p, samples, k).events) == Session.PtraceError))
    ensures run.idle == if cfg.includeIdle then |idle| else 0
    ensures forall k: nat :: k in idle <==> k < n && At(p, samples, k).state == Session.Stopped && samples[k].attempt == Threads([])
    ensures run.records == RecordsOf(TurnsOf(p, samples, n), cfg)
  {
    hide FailedTurns, IdleTurns, RecordsOf, TurnsOf, At;
    failed := FailedMeans(p, samples, n);
    idle := IdleMeans(p, samples, n);
  }

  ghost function Now(t: Session.Target): Point
    reads t`state, t`events
  {
    Point(t.state, t.events)
  }

  lemma OneTurnMore(p: Point, samples: seq<Sample>, i: nat)
    requires i < |samples|
    ensures TurnsOf(p, samples, i + 1) == TurnsOf(p, samples, i) + [TurnOf(At(p, samples, i), samples[i])]
  {
  }

  lemma StoppedWithoutFailure(run: Run, p: Point, samples: seq<Sample>, n: nat, cfg: Config)
    requires n <= |samples| && Accounts(run, TurnsOf(p, samples, n), cfg)
    ensures run.failed == 0 ==> AlwaysStopped(p, samples, n)
  {
    if run.failed == 0 {
      NoFailure(p, samples, n);
    }
  }

  /** One pass through the loop. */
  method TakeTurn(t: Session.Target, sample: Sample, cfg: Config, run: Run, ghost turns: seq<Turn>)
    returns (run': Run, code: nat, ended: bool)
    requires Accounts(run, turns, cfg)
    modifies t
    ensures Accounts(run', turns + [TurnOf(old(Now(t)), sample)], cfg)
    ensures ended <==> Ends(old(Now(t)), sample)
    ensures code == if ended && sample.attempt.Other? then 1 else 0
    ensures Now(t) == Next(old(Now(t)), sample)
    ensures t.log == old(t.log) + Uses(old(Now(t)), sample)
  {
    hide Accounts, AllThreads, IdleTurns, FailedTurns, ThreadRecords, RecordsOf, TurnRecords,
      Session.Verdict, Session.AfterWait, Session.Pending, Session.RunLog;
    var now, attempt := sample.now, sample.attempt;
    var records, idle, failed := run.records, run.idle, run.failed;
    ghost var turn := Turn(now, None, None);
    var failure := None;
    CountNothing(run, turns, cfg, now);
    var peek := t.PtracePeek();
    if peek != Session.Fine {
      failure := Some(NO_PEEK);
    } else if attempt.Failure? {
      failure := Some(attempt.text);
    } else if attempt.Other? {
      return run, 1, true;
    } else {
      var threads := attempt.threads;
      CountThreads(run, turns, cfg, now, threads);
      turn := turn.(taken := Some(threads));
      if |threads| == 0 && cfg.includeIdle {
        idle := idle + 1;
        if cfg.includeTs {
          records := records + [Record(now, [])];
        }
      }
      records := PushThreads(records, now, threads);
      assert run.records + [] == run.records;
      if sample.expired {
        return Run(records, idle, failed), 0, true;
      }
      var resumed := t.LetRun();
      if resumed == Session.TerminateError {
        return Run(records, idle, failed), 0, true;
      } else if resumed == Session.PtraceError {
        failure := Some(NO_RESUME);
      }
    }
    if failure.Some? {
      CountFailure(Run(records, idle, failed), turns, cfg, turn, failure.value);
      failed := failed + 1;
      assert records + [] == records;
      if cfg.includeTs {
        records := records + [Record(now, [Frame("(failed)", failure.value, 0)])];
      }
    }
    return Run(records, idle, failed), 0, false;
  }

  function ThreadRecords(now: nat, threads: seq<Thread>): (records: seq<Record>)
    ensures |records| == |threads|
  {
    seq(|threads|, i requires 0 <= i < |threads| => Record(now, threads[i].frames))
  }

  method PushThreads(records: seq<Record>, now: nat, threads: seq<Thread>) returns (records': seq<Record>)
    ensures records' == records + ThreadRecords(now, threads)
  {
    records' := records;
    for i := 0 to |threads|
      invariant records' == records + ThreadRecords(now, threads[..i])
    {
      records' := records' + [Record(now, threads[i].frames)];
    }
    assert threads[..|threads|] == threads;
  }

  lemma NothingYet(p: Point, samples: seq<Sample>, cfg: Config)
    ensures Accounts(Run([], 0, 0), TurnsOf(p, samples, 0), cfg)
  {
  }

  lemma TurnsSnoc(turns: seq<Turn>, turn: Turn)
    ensures AllThreads(turns + [turn]) == AllThreads(turns) + if turn.taken.Some? then turn.taken.value else []
    ensures IdleTurns(turns + [turn]) == IdleTurns(turns) + if turn.taken == Some([]) then 1 else 0
    ensures FailedTurns(turns + [turn]) == FailedTurns(turns) + if turn.error.Some? then 1 else 0
    ensures forall cfg :: RecordsOf(turns + [turn], cfg) == RecordsOf(turns, cfg) + TurnRecords(turn, cfg)
  {
    assert (turns + [turn])[..|turns|] == turns;
  }

  lemma CountNothing(run: Run, turns: seq<Turn>, cfg: Config, now: nat)
    requires Accounts(run, turns, cfg)
    ensures Accounts(run, turns + [Turn(now, None, None)], cfg)
  {
    TurnsSnoc(turns, Turn(now, None, None));
  }

  lemma CountThreads(run: Run, turns: seq<Turn>, cfg: Config, now: nat, threads: seq<Thread>)
    requires Accounts(run, turns, cfg)
    ensures var idle := threads == [] && cfg.includeIdle;
      Accounts(Run(run.records + (if idle && cfg.includeTs then [Record(now, [])] else []) + ThreadRecords(now, threads),
                   run.idle + if idle then 1 else 0, run.failed),
               turns + [Turn(now, Some(threads), None)], cfg)
  {
    TurnsSnoc(turns, Turn(now, Some(threads), None));
    var idle := if threads == [] && cfg.includeIdle && cfg.includeTs then [Record(now, [])] else [];
    assert TurnRecords(Turn(now, Some(threads), None), cfg) == idle + ThreadRecords(now, threads);
    assert run.records + (idle + ThreadRecords(now, threads)) == run.records + idle + ThreadRecords(now, threads);
  }

  lemma FailedRecords(turn: Turn, text: string, cfg: Config)
    requires turn.error.None?
    ensures TurnRecords(turn.(error := Some(text)), cfg)
         == TurnRecords(turn, cfg) + if cfg.includeTs then [Record(turn.now, [Frame("(failed)", text, 0)])] else []
  {
  }

  lemma CountFailure(run: Run, turns: seq<Turn>, cfg: Config, turn: Turn, text: string)
    requires Accounts(run, turns + [turn], cfg) && turn.error.None?
    ensures Accounts(Run(run.records + (if cfg.includeTs then [Record(turn.now, [Frame("(failed)", text, 0)])] else []),
                         run.idle, run.failed + 1),
                     turns + [turn.(error := Some(text))], cfg)
  {
    TurnsSnoc(turns, turn);
    TurnsSnoc(turns, turn.(error := Some(text)));
    var failed := if cfg.includeTs then [Record(turn.now, [Frame("(failed)", text, 0)])] else [];
    FailedRecords(turn, text, cfg);
    hide TurnRecords;
    assert RecordsOf(turns, cfg) + (TurnRecords(turn, cfg) + failed) == run.records + failed;
  }

  /** The threads of every sample are what GetThreads returns on some memory. */
  ghost predicate FromMemory(samples: seq<Sample>) {
    forall k :: 0 <= k < |samples| && samples[k].attempt.Threads? ==> IsReturned(samples[k].attempt.threads)
  }

  ghost predicate IsReturned(threads: seq<Thread>) {
    exists mem, abi, roots, enableThreads, chain :: ThreadWalk.Gives(mem, abi, roots, enableThreads, chain, threads)
  }

  lemma ReturnedHaveFrames(threads: seq<Thread>)
    requires IsReturned(threads)
    ensures forall i :: 0 <= i < |threads| ==> threads[i].frames != []
  {
    hide ThreadWalk.Gives;
    var mem, abi, roots, enableThreads, chain :| ThreadWalk.Gives(mem, abi, roots, enableThreads, chain, threads);
    ThreadWalk.GivenHaveFrames(mem, abi, roots, enableThreads, chain, threads);
  }

  /** So each of them has a frame. */
  ghost predicate ThreadsHaveFrames(samples: seq<Sample>) {
    forall k :: 0 <= k < |samples| && samples[k].attempt.Threads? ==>
      forall i :: 0 <= i < |samples[k].attempt.threads| ==> samples[k].attempt.threads[i].frames != []
  }

  lemma {:induction false} TakenHaveFrames(p: Point, samples: seq<Sample>, n: nat)
    requires ThreadsHaveFrames(samples) && n <= |samples|
    ensures [] !in StacksOfThreads(Taken(p, samples, n))
  {
    if n > 0 {
      TakenHaveFrames(p, samples, n - 1);
      var front: seq<Thread> := Taken(p, samples, n - 1);
      assert forall i :: 0 <= i < |front| ==> StacksOfThreads(front)[i] != [];
      forall i | 0 <= i < |Taken(p, samples, n)| ensures Taken(p, samples, n)[i].frames != [] {
        assert i < |front| ==> StacksOfThreads(front)[i] == Taken(p, samples, n)[i].frames;
      }
    }
  }

  lemma FramesFromMemory(samples: seq<Sample>)
    requires FromMemory(samples)
    ensures ThreadsHaveFrames(samples)
  {
    hide IsReturned;
    forall k | 0 <= k < |samples| && samples[k].attempt.Threads?
      ensures forall i :: 0 <= i < |samples[k].attempt.threads| ==> samples[k].attempt.threads[i].frames != []
    {
      ReturnedHaveFrames(samples[k].attempt.threads);
    }
  }

  /** ProbeLoop: the loop and what is printed at the end. Without timestamps the
      "fatal error" of PrintFrames does not happen, and the printed counts are those
      of the stacks of the threads of exactly the samples that succeed: their sum
      is the number of these threads. */
  method ProbeLoop(h: Hasher, t: Session.Target, samples: seq<Sample>, cfg: Config)
    returns (lines: seq<string>, code: nat, fatal: bool, ghost run: Run, ghost n: nat, ghost buckets: seq<Bucket>,
             ghost failed: set<nat>, ghost idle: set<nat>)
    requires FromMemory(samples)
    modifies t
    ensures n <= |samples| && Accounts(run, TurnsOf(old(Now(t)), samples, n), cfg)
    ensures (n > 0 && EndsAt(old(Now(t)), samples, n - 1)) || (n == |samples| && forall k: nat :: !EndsAt(old(Now(t)), samples, k))
    ensures code == if n > 0 && EndsAt(old(Now(t)), samples, n - 1) && samples[n - 1].attempt.Other? then 1 else 0
    ensures t.log == old(t.log) + UsesOf(old(Now(t)), samples, n)
    ensures run.failed == |failed|
    ensures forall k: nat :: k in failed <==>
      && k < n
      && (|| At(old(Now(t)), samples, k).state != Session.Stopped || samples[k].attempt.Failure?
          || (samples[k].attempt.Threads? && !samples[k].expired
              && Session.Verdict(At(old(Now(t)), samples, k).events) == Session.PtraceError))
    ensures run.idle == if cfg.includeIdle then |idle| else 0
    ensures forall k: nat :: k in idle <==>
      k < n && At(old(Now(t)), samples, k).state == Session.Stopped && samples[k].attempt == Threads([])
    ensures cfg.includeTs ==>
      && lines == RecordLines(run.records, cfg.includeLine)
      && |lines| == 2 * (|Taken(old(Now(t)), samples, n)| + run.idle + run.failed)
    ensures !cfg.includeTs ==>
      && !fatal && Counts(StacksOfThreads(Taken(old(Now(t)), samples, n)), buckets)
      && Total(buckets) == |Taken(old(Now(t)), samples, n)|
      && (forall k :: 0 <= k < |buckets| ==> buckets[k].frames != [])
      && lines == Header(run.idle, run.failed) + BucketLines(buckets, cfg.includeLine)
  {
    hide Accounts, TurnsOf, EndsAt, Taken, ThreadsHaveFrames, FromMemory, UsesOf;
    ghost var p := Now(t);
    var r, ended;
    r, code, ended, n := SampleLoop(t, samples, cfg);
    run := r;
    FramesFromMemory(samples);
    TakenHaveFrames(p, samples, n);
    Conservation(run, TurnsOf(p, samples, n), cfg);
    TakenInTurns(p, samples, n);
    failed, idle := AccountsMean(run, p, samples, n, cfg);
    lines, fatal, buckets := [], false, [];
    if r.records != [] || r.idle > 0 || r.failed > 0 {
      if !cfg.includeTs {
        lines, fatal, buckets := PrintFrames(h, r.records, r.idle, r.failed, cfg.includeLine);
      } else {
        lines := PrintFramesTS(r.records, cfg.includeLine);
      }
    } else {
      CountsNone();
      assert Stacks(r.records) == [];
    }
  }

  /** All that is done to a target, up to the printing: attach, look for
      symbols, sample. The log has exactly the requests of the steps that are
      reached, and p is what the sampling finds. If nothing throws a PtraceException
      on the way, the target is stopped at every peek and every Cont. */
  method WholeSession(t: Session.Target, trace: bool, seized: bool, answers: seq<Session.Detection>, maxRetries: nat,
                      samples: seq<Sample>, cfg: Config)
    returns (code: nat, r: Session.Outcome, run: Run, ghost tries: nat, ghost n: nat)
    requires t.state == Session.Running && 1 <= maxRetries <= |answers|
    modifies t
    ensures
      var attach, last := Session.AttachLog(trace, old(t.events)), Session.Handover(trace, old(t.events));
      var log := old(t.log) + attach + Session.Conts(Session.ChildStops(last));
      var events := Session.Pending(last);
      if !Session.Attaches(trace, seized, old(t.events)) then
        && code == 1 && tries == n == 0 && t.log == old(t.log) + attach
        && r == if trace && (old(t.events) == [] || !old(t.events)[0].StoppedBy?) then Session.PtraceError else Session.Fine
      else if Session.Verdict(last) != Session.Fine then
        r == Session.Verdict(last) && tries == n == 0 && t.log == log
      else if !Finds(answers, tries) then
        && Session.Searched(answers, maxRetries, events, tries, code, r) && n == 0
        && t.log == log + Session.SearchLog(answers, events, tries, r)
      else
        var p := Point(Session.Stopped, Session.PendingAfter(events, tries - 1));
        && r == Session.Fine && Session.Searched(answers, maxRetries, events, tries, 0, r)
        && n <= |samples| && Accounts(run, TurnsOf(p, samples, n), cfg)
        && ((n > 0 && EndsAt(p, samples, n - 1)) || (n == |samples| && forall k: nat :: !EndsAt(p, samples, k)))
        && code == (if n > 0 && EndsAt(p, samples, n - 1) && samples[n - 1].attempt.Other? then 1 else 0)
        && t.log == log + Session.SearchLog(answers, events, tries, r) + UsesOf(p, samples, n)
    ensures !Finds(answers, tries) ==> run == Run([], 0, 0)
    ensures r != Session.PtraceError && run.failed == 0 && old(Session.Disciplined(t.log)) ==> Session.Disciplined(t.log)
  {
    hide Session.Disciplined, Session.Verdict, Session.Pending, Session.PendingAfter, Session.SearchLog, Session.Handover,
      Accounts, TurnsOf, EndsAt, UsesOf, AlwaysStopped;
    run, tries, n := Run([], 0, 0), 0, 0;
    code, r := t.InitiatePtrace(trace, seized);
    DisciplinedAttach(trace, old(t.events));
    ghost var attach, last := Session.AttachLog(trace, old(t.events)), Session.Handover(trace, old(t.events));
    DisciplinedBoth(old(t.log), attach);
    DisciplinedBoth(old(t.log) + attach, Session.Conts(Session.ChildStops(last)));
    ghost var attached, events := t.log, t.events;
    if r == Session.Fine && code == 0 {
      var found;
      found, r, tries := t.FindSymbols(answers, maxRetries);
      code := found;
      DisciplinedBoth(attached, Session.SearchLog(answers, events, tries, r));
      ghost var searched := t.log;
      if r == Session.Fine && code == 0 {
        ghost var p := Now(t);
        var ended;
        run, code, ended, n := SampleLoop(t, samples, cfg);
        DisciplinedUses(p, samples, n);
        DisciplinedBoth(searched, UsesOf(p, samples, n));
      }
    }
  }

  /** The last try finds the ABI. */
  predicate Finds(answers: seq<Session.Detection>, tries: nat) {
    1 <= tries <= |answers| && answers[tries - 1] == Session.Found
  }

  lemma DisciplinedAttach(trace: bool, events: seq<Session.WaitStatus>)
    ensures Session.Disciplined(Session.AttachLog(trace, events)) <==>
      !(trace && (events == [] || !events[0].StoppedBy?))
  {
    var log := Session.AttachLog(trace, events);
    assert trace ==> log[0].stopped == (events != [] && events[0].StoppedBy?);
  }
}
