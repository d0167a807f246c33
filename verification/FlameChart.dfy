/** flame-chart-json: the graph that is rebuilt from a printed flame chart, and
    the round trip from PrintFramesTS through it. */
module FlameChart {
  import opened Wrappers
  import opened Text
  import opened Frames
  import opened Sampling

  /** children is absent in the last node of a stack. */
  datatype Node = Node(id: nat, name: string, children: Option<seq<nat>>)

  const IDLE_NODE_ID: nat := 2

  /** The parts of prof that records change, and the timestamp before. */
  datatype Chart = Chart(nodes: seq<Node>, samples: seq<nat>, timeDeltas: seq<int>, prevTs: nat)

  const EMPTY := Chart([Node(1, "(root)", Some([2])), Node(2, "(idle)", Some([]))], [], [], 0)

  /** Root and idle nodes come first and collect the first nodes of all stacks. */
  predicate HasRoots(c: Chart) {
    |c.nodes| >= 2 && c.nodes[0].children.Some? && c.nodes[1].children.Some?
  }

  function Adopt(node: Node, child: nat): Node
    requires node.children.Some?
  {
    node.(children := Some(node.children.value + [child]))
  }

  /** The nodes for the pieces of a line from the i-th on, with ids from id on. Only
      pieces in front of the last two get a child. */
  function PieceNodes(pieces: seq<string>, i: nat, id: nat): seq<Node>
    requires i <= |pieces|
    decreases |pieces| - i
  {
    if i == |pieces| then []
    else if pieces[i] == "" then PieceNodes(pieces, i + 1, id)
    else [Node(id, pieces[i], if i < |pieces| - 2 then Some([id + 1]) else None)] + PieceNodes(pieces, i + 1, id + 1)
  }

  /** The chart after a record. */
  function WithRecord(c: Chart, ts: nat, pieces: seq<string>): (r: Chart)
    requires HasRoots(c)
    ensures HasRoots(r)
  {
    var first := |c.nodes| + 1;
    var nodes := c.nodes + PieceNodes(pieces, 0, first);
    Chart(nodes[0 := Adopt(nodes[0], first)][1 := Adopt(nodes[1], first)],
          c.samples + [|nodes|, IDLE_NODE_ID],
          c.timeDeltas + [if c.prevTs != 0 then ts - c.prevTs - 1000 else 0, 1000],
          ts)
  }

  /** The pieces of a line of a stack. */
  function Pieces(line: string): (pieces: seq<string>)
    ensures pieces != []
  {
    Split(Strip(line), ';')
  }

  /** The chart after the lines of a stream: timestamps and stacks in turn. None
      stands for the ValueError of a line that is not a number. */
  function ReadLines(c: Chart, lines: seq<string>): (r: Option<Chart>)
    requires HasRoots(c)
    ensures r.Some? ==> HasRoots(r.value)
    decreases |lines|
  {
    if lines == [] then Some(c)
    else
      match ParseNat(Strip(lines[0]))
      case None => None
      case Some(ts) =>
        if |lines| == 1 then Some(c)
        else ReadLines(WithRecord(c, ts, Pieces(lines[1])), lines[2..])
  }

  /** A timestamp and a line make a record; a line that should be a timestamp and is
      none ends everything. */
  lemma ReadLinesMeans(c: Chart, ts: string, cs: string, rest: seq<string>)
    requires HasRoots(c)
    ensures ReadLines(c, []) == Some(c)
    ensures ParseNat(Strip(ts)) == None ==> ReadLines(c, [ts] + rest) == None
    ensures ParseNat(Strip(ts)).Some? ==>
      && ReadLines(c, [ts]) == Some(c)
      && ReadLines(c, [ts, cs] + rest) == ReadLines(WithRecord(c, ParseNat(Strip(ts)).value, Split(Strip(cs), ';')), rest)
  {
    hide WithRecord, ParseNat, Strip, Split;
    assert ([ts, cs] + rest)[2..] == rest;
  }

  class FCJson {
    var nodeId: nat
    var nodes: seq<Node>
    var samples: seq<nat>
    var timeDeltas: seq<int>
    var prevTs: nat

    function Contents(): Chart
      reads this
    {
      Chart(nodes, samples, timeDeltas, prevTs)
    }

    predicate Valid()
      reads this
    {
      HasRoots(Contents()) && nodeId == |nodes| + 1
    }

    constructor ()
      ensures Valid() && Contents() == EMPTY
      ensures nodes == [Node(1, "(root)", Some([2])), Node(2, "(idle)", Some([]))]
      ensures samples == [] && timeDeltas == [] && prevTs == 0 && nodeId == 3
    {
      nodeId, nodes, samples, timeDeltas, prevTs := 1, [], [], [], 0;
      new;
      var root := FillNode("(root)", false);
      nodes := nodes + [root.(children := Some([]))];
      var idle := FillNode("(idle)", false);
      nodes := nodes + [idle.(children := Some([]))];
      nodes := nodes[0 := Adopt(nodes[0], nodeId - 1)];
      assert [] + [nodeId - 1] == [2];
    }

    method FillNode(name: string, fillChildId: bool) returns (node: Node)
      modifies this`nodeId
      ensures nodeId == old(nodeId) + 1
      ensures node == Node(old(nodeId), name, if fillChildId then Some([nodeId]) else None)
    {
      node := Node(nodeId, name, None);
      nodeId := nodeId + 1;
      if fillChildId {
        node := node.(children := Some([nodeId]));
      }
    }

    method CreateCs(cs: seq<string>)
      requires Valid()
      modifies this`nodeId, this`nodes
      ensures Valid() && nodes == old(nodes) + PieceNodes(cs, 0, old(nodeId))
    {
      var addChild := true;
      for i := 0 to |cs|
        invariant Valid() && (i < |cs| - 1 ==> addChild)
        invariant nodes + PieceNodes(cs, i, nodeId) == old(nodes) + PieceNodes(cs, 0, old(nodeId))
      {
        var frame := cs[i];
        if frame != "" {
          if i >= |cs| - 2 {
            addChild := false;
          }
          ghost var rest := PieceNodes(cs, i + 1, nodeId + 1);
          var node := FillNode(frame, addChild);
          assert nodes + ([node] + rest) == (nodes + [node]) + rest;
          nodes := nodes + [node];
        }
      }
    }

    method CreateNode(ts: nat, cs: string)
      requires Valid()
      modifies this
      ensures Valid() && Contents() == WithRecord(old(Contents()), ts, Pieces(cs))
      ensures samples == old(samples) + [nodeId - 1, 2] && prevTs == ts
      ensures timeDeltas == old(timeDeltas) + [if old(prevTs) != 0 then ts - old(prevTs) - 1000 else 0, 1000]
      ensures nodes[0] == old(nodes[0].(children := Some(nodes[0].children.value + [nodeId])))
      ensures nodes[1] == old(nodes[1].(children := Some(nodes[1].children.value + [nodeId])))
      ensures nodes[2..] == old(nodes[2..]) + PieceNodes(Pieces(cs), 0, old(nodeId))
    {
      hide PieceNodes, Split, Strip;
      var prevNodeId := nodeId;
      ghost var before := Contents();
      CreateCs(Split(Strip(cs), ';'));
      samples := samples + [nodeId - 1];
      if prevTs != 0 {
        timeDeltas := timeDeltas + [ts - prevTs - 1000];
      } else {
        timeDeltas := timeDeltas + [0];
      }
      samples := samples + [IDLE_NODE_ID];
      timeDeltas := timeDeltas + [1000];
      prevTs := ts;
      assert samples == before.samples + [|nodes|, IDLE_NODE_ID];
      assert timeDeltas == before.timeDeltas + [if before.prevTs != 0 then ts - before.prevTs - 1000 else 0, 1000];
      nodes := nodes[0 := Adopt(nodes[0], prevNodeId)];
      nodes := nodes[1 := Adopt(nodes[1], prevNodeId)];
    }

    /** The line loop; ok is false when a timestamp is not a number. */
    method Start(input: string) returns (ok: bool)
      requires Valid()
      modifies this
      ensures Valid() && ok == ReadLines(old(Contents()), LinesOf(input)).Some?
      ensures ok ==> ReadLines(old(Contents()), LinesOf(input)) == Some(Contents())
    {
      var lines := LinesOf(input);
      var isFirstLn := true;
      var ts: nat := 0;
      for i := 0 to |lines|
        invariant Valid()
        invariant isFirstLn ==> ReadLines(Contents(), lines[i..]) == ReadLines(old(Contents()), lines)
        invariant !isFirstLn ==>
          && i > 0 && ParseNat(Strip(lines[i - 1])) == Some(ts)
          && ReadLines(Contents(), lines[i - 1..]) == ReadLines(old(Contents()), lines)
      {
        if isFirstLn {
          var number := ParseNat(Strip(lines[i]));
          if number.None? {
            return false;
          }
          ts := number.value;
          isFirstLn := false;
        } else {
          isFirstLn := true;
          assert lines[i - 1..][2..] == lines[i + 1..];
          CreateNode(ts, lines[i]);
        }
      }
      ok := true;
    }
  }

  // --- Well-formed graphs ---

  /** Ids count the nodes, every child exists and has a greater id than its parent,
      every sample is a node, and there are as many time deltas. */
  ghost predicate WellFormed(c: Chart) {
    && HasRoots(c)
    && (forall k :: 0 <= k < |c.nodes| ==> c.nodes[k].id == k + 1 && ChildrenLater(c.nodes[k], |c.nodes|))
    && (forall k :: 0 <= k < |c.samples| ==> 1 <= c.samples[k] <= |c.nodes|)
    && |c.samples| == |c.timeDeltas|
  }

  predicate ChildrenLater(node: Node, n: nat) {
    node.children.Some? ==> forall j :: 0 <= j < |node.children.value| ==> node.id < node.children.value[j] <= n
  }

  /** One of the last two pieces is not empty. */
  predicate Sampled(pieces: seq<string>)
    requires pieces != []
  {
    pieces[|pieces| - 1] != "" || (|pieces| > 1 && pieces[|pieces| - 2] != "")
  }

  /** Exactly one of the last two pieces is not empty. */
  predicate Chained(pieces: seq<string>)
    requires pieces != []
  {
    (pieces[|pieces| - 1] != "") != (|pieces| > 1 && pieces[|pieces| - 2] != "")
  }

  /** How many pieces from the i-th on are not empty. */
  function Count(pieces: seq<string>, i: nat): nat
    requires i <= |pieces|
    decreases |pieces| - i
  {
    if i == |pieces| then 0 else (if pieces[i] == "" then 0 else 1) + Count(pieces, i + 1)
  }

  /** The nodes of a record: consecutive ids, the next id as a child for the pieces
      in front of the last two, and no child for those. */
  lemma {:induction false} PieceNodesShape(pieces: seq<string>, i: nat, id: nat)
    requires i <= |pieces|
    ensures var b := PieceNodes(pieces, i, id);
      var fronts := Count(pieces, i) - Count(pieces, if i + 2 <= |pieces| then |pieces| - 2 else i);
      && |b| == Count(pieces, i) && fronts >= 0
      && forall k :: 0 <= k < |b| ==>
           b[k].id == id + k && b[k].children == if k < fronts then Some([id + k + 1]) else None
    decreases |pieces| - i
  {
    if i < |pieces| {
      var next := if pieces[i] == "" then id else id + 1;
      PieceNodesShape(pieces, i + 1, next);
      var b, rest := PieceNodes(pieces, i, id), PieceNodes(pieces, i + 1, next);
      if pieces[i] != "" {
        assert forall k :: 1 <= k < |b| ==> b[k] == rest[k - 1] && id + 1 + (k - 1) == id + k;
      }
    }
  }

  /** The last two pieces decide: with one of them not empty the last node of the
      record has no dangling child, and with exactly one the nodes are a chain. */
  lemma RecordEnds(pieces: seq<string>, id: nat)
    requires pieces != []
    ensures var b := PieceNodes(pieces, 0, id);
      && (Sampled(pieces) <==> b != [] && b[|b| - 1].children == None)
      && (Chained(pieces) <==> b != [] && forall k :: 0 <= k < |b| ==> b[k].children == if k < |b| - 1 then Some([id + k + 1]) else None)
  {
    PieceNodesShape(pieces, 0, id);
    var n, b := |pieces|, PieceNodes(pieces, 0, id);
    if n > 1 {
      assert Count(pieces, n - 2) == (if pieces[n - 2] == "" then 0 else 1) + Count(pieces, n - 1);
    }
    assert Count(pieces, n - 1) == if pieces[n - 1] == "" then 0 else 1;
    if b != [] && forall k :: 0 <= k < |b| ==> b[k].children == if k < |b| - 1 then Some([id + k + 1]) else None {
      assert |b| > 1 ==> b[|b| - 2].children != None;
      assert b[|b| - 1].children == None;
    }
  }

  /** A record keeps a graph well formed exactly when its line has a last node. */
  lemma RecordKeepsWellFormed(c: Chart, ts: nat, pieces: seq<string>)
    requires WellFormed(c) && pieces != []
    ensures WellFormed(WithRecord(c, ts, pieces)) <==> Sampled(pieces)
  {
    var first, r := |c.nodes| + 1, WithRecord(c, ts, pieces);
    var b := PieceNodes(pieces, 0, first);
    PieceNodesShape(pieces, 0, first);
    RecordEnds(pieces, first);
    assert r.nodes[0].children.value[|c.nodes[0].children.value|] == first;
    if Sampled(pieces) {
      forall k | 0 <= k < |r.nodes| ensures r.nodes[k].id == k + 1 && ChildrenLater(r.nodes[k], |r.nodes|) {
        assert k < |c.nodes| ==> c.nodes[k].id == k + 1 && ChildrenLater(c.nodes[k], |c.nodes|);
        assert k >= |c.nodes| ==> r.nodes[k] == b[k - |c.nodes|];
      }
    } else if b != [] {
      var last := |r.nodes| - 1;
      assert r.nodes[last] == b[|b| - 1];
      assert r.nodes[last].children.value[0] == |r.nodes| + 1;
    } else {
      assert r.nodes[0].children.value[|c.nodes[0].children.value|] > |r.nodes|;
    }
  }

  // --- Several records ---

  datatype Entry = Entry(ts: nat, pieces: seq<string>)

  /** The chart of a series of records. */
  function Built(entries: seq<Entry>): (c: Chart)
    ensures HasRoots(c)
  {
    if entries == [] then EMPTY
    else
      var last := entries[|entries| - 1];
      WithRecord(Built(entries[..|entries| - 1]), last.ts, last.pieces)
  }

  /** Whatever the records are, the graph is well formed if each has a last node. */
  lemma {:induction false} BuiltWellFormed(entries: seq<Entry>)
    requires forall k :: 0 <= k < |entries| ==> entries[k].pieces != [] && Sampled(entries[k].pieces)
    ensures WellFormed(Built(entries)) && |Built(entries).samples| == 2 * |entries|
    ensures var c := Built(entries);
      && (forall k :: 0 <= k < |c.nodes| ==> c.nodes[k].id == k + 1)
      && (forall k, j :: 0 <= k < |c.nodes| && c.nodes[k].children.Some? && 0 <= j < |c.nodes[k].children.value| ==>
            k + 1 < c.nodes[k].children.value[j] <= |c.nodes|)
      && (forall k :: 0 <= k < |c.samples| ==> 1 <= c.samples[k] <= |c.nodes|)
      && |c.timeDeltas| == |c.samples|
  {
    if entries != [] {
      var front, last := entries[..|entries| - 1], entries[|entries| - 1];
      BuiltWellFormed(front);
      RecordKeepsWellFormed(Built(front), last.ts, last.pieces);
    }
  }

  function Sum(s: seq<int>): int {
    if s == [] then 0 else Sum(s[..|s| - 1]) + s[|s| - 1]
  }

  /** With positive timestamps the deltas add up to the time from the first to the
      last, and 1000 for the first record. */
  lemma {:induction false} DeltasSum(entries: seq<Entry>)
    requires entries != [] && forall k :: 0 <= k < |entries| ==> entries[k].ts > 0
    ensures Sum(Built(entries).timeDeltas) == entries[|entries| - 1].ts - entries[0].ts + 1000
    ensures |Built(entries).timeDeltas| == 2 * |entries| && Built(entries).prevTs == entries[|entries| - 1].ts
  {
    var n := |entries| - 1;
    var front, last := entries[..n], entries[n];
    var c := Built(front);
    assert Built(entries).timeDeltas == c.timeDeltas + [if c.prevTs != 0 then last.ts - c.prevTs - 1000 else 0, 1000];
    assert Built(entries).prevTs == last.ts;
    if n == 0 {
      assert c == EMPTY;
    }
    hide Built, Sum;
    if n > 0 {
      DeltasSum(front);
      assert front[0] == entries[0] && front[n - 1] == entries[n - 1];
    } else {
      SumNone();
    }
    SumTwo(c.timeDeltas, if c.prevTs != 0 then last.ts - c.prevTs - 1000 else 0, 1000);
  }

  lemma SumNone()
    ensures Sum([]) == 0
  {
  }

  lemma SumTwo(s: seq<int>, a: int, b: int)
    ensures Sum(s + [a, b]) == Sum(s) + a + b
  {
    assert (s + [a, b])[..|s| + 1] == s + [a];
    assert (s + [a])[..|s|] == s;
  }

  // --- The round trip ---

  /** Nodes with these names and consecutive ids from first on, each but the last
      with the next as its only child. */
  ghost predicate Linked(part: seq<Node>, first: nat, names: seq<string>) {
    && names != [] && |part| == |names|
    && forall j :: 0 <= j < |part| ==>
         part[j].name == names[j] && part[j].children == if j < |part| - 1 then Some([first + j + 1]) else None
  }

  /** first and last are the ends of such a chain. */
  ghost predicate Chain(nodes: seq<Node>, first: nat, last: nat, names: seq<string>) {
    1 <= first <= last <= |nodes| && Linked(nodes[first - 1..last], first, names)
  }

  /** Following the children from a node. */
  function NamesFrom(nodes: seq<Node>, id: nat): seq<string>
    requires 1 <= id <= |nodes|
    decreases |nodes| - id
  {
    var node := nodes[id - 1];
    [node.name] +
      if node.children.Some? && node.children.value != [] && id < node.children.value[0] <= |nodes|
      then NamesFrom(nodes, node.children.value[0]) else []
  }

  /** The chain of the k-th record: from the k-th adopted node to its sample. */
  ghost predicate RecordChain(c: Chart, k: nat, names: seq<string>) {
    && c.nodes != [] && c.nodes[0].children.Some? && k + 1 < |c.nodes[0].children.value| && 2 * k < |c.samples|
    && c.nodes[0].children.value[k + 1] > 2
    && Chain(c.nodes, c.nodes[0].children.value[k + 1], c.samples[2 * k], names)
  }

  lemma {:induction false} ChainNames(nodes: seq<Node>, first: nat, last: nat, names: seq<string>)
    requires Chain(nodes, first, last, names)
    ensures NamesFrom(nodes, first) == names
    decreases |names|
  {
    var part := nodes[first - 1..last];
    assert part[0] == nodes[first - 1];
    if |names| > 1 {
      var rest := nodes[first..last];
      assert rest == part[1..];
      assert forall j :: 0 <= j < |rest| ==> rest[j] == part[j + 1] && first + (j + 1) + 1 == first + 1 + j + 1;
      ChainNames(nodes, first + 1, last, names[1..]);
      assert [names[0]] + names[1..] == names;
    }
  }

  /** The k-th record is a chain, and following its children gives the names. */
  ghost predicate ReadsAs(c: Chart, k: nat, names: seq<string>) {
    RecordChain(c, k, names) && NamesFrom(c.nodes, c.nodes[0].children.value[k + 1]) == names
  }

  lemma ChainReads(c: Chart, k: nat, names: seq<string>)
    requires RecordChain(c, k, names)
    ensures ReadsAs(c, k, names)
  {
    ChainNames(c.nodes, c.nodes[0].children.value[k + 1], c.samples[2 * k], names);
  }

  function Filled(pieces: seq<string>): seq<string> {
    if pieces == [] then [] else (if pieces[0] == "" then [] else [pieces[0]]) + Filled(pieces[1..])
  }

  /** The pieces that are not empty, in order. */
  lemma {:induction false} FilledMeans(a: seq<string>, piece: string)
    ensures Filled([]) == [] && Filled(a + [piece]) == Filled(a) + if piece == "" then [] else [piece]
  {
    if a == [] {
      assert [] + [piece] == [piece] && [piece][1..] == [];
    } else {
      assert (a + [piece])[1..] == a[1..] + [piece];
      FilledMeans(a[1..], piece);
    }
  }

  /** The nodes of a record have these names, in order. */
  lemma {:induction false} PieceNames(pieces: seq<string>, i: nat, id: nat)
    requires i <= |pieces|
    ensures var b := PieceNodes(pieces, i, id);
      |b| == |Filled(pieces[i..])| && forall k :: 0 <= k < |b| ==> b[k].name == Filled(pieces[i..])[k]
    decreases |pieces| - i
  {
    if i < |pieces| {
      var next := if pieces[i] == "" then id else id + 1;
      PieceNames(pieces, i + 1, next);
      assert pieces[i..][1..] == pieces[i + 1..] && pieces[i..][0] == pieces[i];
      var b, rest := PieceNodes(pieces, i, id), PieceNodes(pieces, i + 1, next);
      assert pieces[i] != "" ==> forall k :: 1 <= k < |b| ==> b[k] == rest[k - 1];
    }
  }

  /** After n records, root has adopted n stacks beside the idle node. */
  ghost predicate Adopted(c: Chart, n: nat) {
    HasRoots(c) && |c.nodes[0].children.value| == n + 1 && |c.samples| == 2 * n
  }

  lemma RecordAddsChain(c: Chart, n: nat, ts: nat, pieces: seq<string>)
    requires Adopted(c, n) && pieces != [] && Chained(pieces)
    ensures Adopted(WithRecord(c, ts, pieces), n + 1)
    ensures RecordChain(WithRecord(c, ts, pieces), n, Filled(pieces))
    ensures forall k, names :: 0 <= k < n && RecordChain(c, k, names) ==> RecordChain(WithRecord(c, ts, pieces), k, names)
  {
    hide RecordChain, WithRecord;
    var r := WithRecord(c, ts, pieces);
    NewChain(c, n, ts, pieces);
    forall k, names | 0 <= k < n && RecordChain(c, k, names) ensures RecordChain(r, k, names) {
      ChainStays(c, ts, pieces, k, names);
    }
  }

  lemma NewChain(c: Chart, n: nat, ts: nat, pieces: seq<string>)
    requires Adopted(c, n) && pieces != [] && Chained(pieces)
    ensures Adopted(WithRecord(c, ts, pieces), n + 1)
    ensures RecordChain(WithRecord(c, ts, pieces), n, Filled(pieces))
  {
    hide PieceNodes, Filled, Chained, WithRecord, Linked, Chain, RecordChain;
    var first, r := |c.nodes| + 1, WithRecord(c, ts, pieces);
    RecordEnds(pieces, first);
    PieceNames(pieces, 0, first);
    assert pieces[0..] == pieces;
    RecordParts(c, ts, pieces);
    AdoptedIntro(c, r, n, first, |r.nodes|, PieceNodes(pieces, 0, first), Filled(pieces));
  }

  lemma AdoptedIntro(c: Chart, r: Chart, n: nat, first: nat, last: nat, b: seq<Node>, names: seq<string>)
    requires Adopted(c, n) && HasRoots(r) && first == |c.nodes| + 1 && last == |r.nodes| == |c.nodes| + |b|
    requires r.nodes[|c.nodes|..] == b && r.samples == c.samples + [last, IDLE_NODE_ID]
    requires r.nodes[0].children.value == c.nodes[0].children.value + [first]
    requires b != [] && |b| == |names| && forall k :: 0 <= k < |b| ==> b[k].name == names[k]
    requires forall k :: 0 <= k < |b| ==> b[k].children == if k < |b| - 1 then Some([first + k + 1]) else None
    ensures Adopted(r, n + 1) && RecordChain(r, n, names)
  {
    assert r.nodes[first - 1..last] == b;
  }

  /** The parts of a chart after a record. */
  lemma RecordParts(c: Chart, ts: nat, pieces: seq<string>)
    requires HasRoots(c)
    ensures var r := WithRecord(c, ts, pieces);
      && HasRoots(r) && |r.nodes| == |c.nodes| + |PieceNodes(pieces, 0, |c.nodes| + 1)|
      && r.nodes[2..|c.nodes|] == c.nodes[2..]
      && r.nodes[|c.nodes|..] == PieceNodes(pieces, 0, |c.nodes| + 1)
      && r.nodes[0].children.value == c.nodes[0].children.value + [|c.nodes| + 1]
      && r.samples == c.samples + [|r.nodes|, IDLE_NODE_ID]
  {
    hide PieceNodes;
  }

  lemma SameSlice(a: seq<Node>, b: seq<Node>, i: nat, j: nat)
    requires 2 <= i <= j <= |a| <= |b| && b[2..|a|] == a[2..]
    ensures b[i..j] == a[i..j]
  {
    forall k | i <= k < j ensures b[k] == a[k] {
      assert b[k] == b[2..|a|][k - 2] && a[k] == a[2..][k - 2];
    }
  }

  lemma ChainStays(c: Chart, ts: nat, pieces: seq<string>, k: nat, names: seq<string>)
    requires HasRoots(c) && RecordChain(c, k, names)
    ensures RecordChain(WithRecord(c, ts, pieces), k, names)
  {
    RecordParts(c, ts, pieces);
    hide WithRecord, PieceNodes, Linked;
    var r, start, end := WithRecord(c, ts, pieces), c.nodes[0].children.value[k + 1], c.samples[2 * k];
    assert r.nodes[0].children.value[k + 1] == start && r.samples[2 * k] == end;
    SameSlice(c.nodes, r.nodes, start - 1, end);
  }

  /** Every record of a series stays in the graph as a chain. */
  lemma {:induction false} BuiltChains(entries: seq<Entry>)
    requires forall k :: 0 <= k < |entries| ==> entries[k].pieces != [] && Chained(entries[k].pieces)
    ensures Adopted(Built(entries), |entries|)
    ensures forall k :: 0 <= k < |entries| ==> RecordChain(Built(entries), k, Filled(entries[k].pieces))
  {
    if entries != [] {
      hide RecordChain, Chained, Filled, WithRecord, Adopted;
      var n := |entries| - 1;
      var front := entries[..n];
      BuiltChains(front);
      RecordAddsChain(Built(front), n, entries[n].ts, entries[n].pieces);
      forall k | 0 <= k < |entries| ensures RecordChain(Built(entries), k, Filled(entries[k].pieces)) {
        assert k < n ==> front[k] == entries[k] && RecordChain(Built(front), k, Filled(front[k].pieces));
      }
    }
  }

  /** Reading the lines of a series of records builds its chart. */
  lemma {:induction false} ReadIsBuilt(entries: seq<Entry>, lines: seq<string>, n: nat)
    requires n <= |entries| && |lines| == 2 * |entries|
    requires forall k :: 0 <= k < |entries| ==>
      ParseNat(Strip(lines[2 * k])) == Some(entries[k].ts) && Pieces(lines[2 * k + 1]) == entries[k].pieces
    ensures ReadLines(Built(entries[..n]), lines[2 * n..]) == Some(Built(entries))
    decreases |entries| - n
  {
    hide WithRecord, ParseNat, Strip, Pieces;
    if n == |entries| {
      assert entries[..n] == entries && lines[2 * n..] == [];
    } else {
      var now, rest := entries[..n + 1], lines[2 * n..];
      assert now[..n] == entries[..n] && now[n] == entries[n];
      assert Built(now) == WithRecord(Built(entries[..n]), entries[n].ts, entries[n].pieces);
      assert rest[2..] == lines[2 * (n + 1)..];
      assert rest[0] == lines[2 * n] && rest[1] == lines[2 * n + 1];
      ReadIsBuilt(entries, lines, n + 1);
    }
  }

  /** No character of the printed text ends a field or a line. */
  predicate Printable(frames: seq<Frame>) {
    forall i :: 0 <= i < |frames| ==>
      && Free(frames[i].file, ';') && Free(frames[i].name, ';')
      && Free(frames[i].file, '\n') && Free(frames[i].name, '\n')
  }

  /** The names that a record is read back with: strip() takes white space from the
      front of the outermost frame. */
  function RecordNames(frames: seq<Frame>, withLine: bool): seq<string> {
    if frames == [] then ["(idle)"]
    else if |frames| == 1 && frames[0].file == "(failed)" then ["(failed)"]
    else
      var texts := Outermost(frames, withLine);
      [StripLeft(texts[0])] + texts[1..]
  }

  /** They are the printed frames exactly when the outermost one does not start
      with white space. */
  lemma NamesExact(frames: seq<Frame>, withLine: bool)
    requires frames != [] && !(|frames| == 1 && frames[0].file == "(failed)")
    ensures RecordNames(frames, withLine) == Outermost(frames, withLine) <==>
      !IsSpace(FrameText(frames[|frames| - 1], withLine)[0])
  {
    var texts := Outermost(frames, withLine);
    StripLeftShrinks(texts[0]);
    assert ([StripLeft(texts[0])] + texts[1..])[0] == StripLeft(texts[0]);
    assert [texts[0]] + texts[1..] == texts;
  }

  lemma TextsFree(frames: seq<Frame>, withLine: bool)
    requires Printable(frames)
    ensures var texts := Outermost(frames, withLine);
      forall i :: 0 <= i < |texts| ==> Free(texts[i], ';') && Free(texts[i], '\n') && !AllSpace(texts[i]) && texts[i] != ""
  {
    hide FrameText;
    var texts := Outermost(frames, withLine);
    forall i | 0 <= i < |texts|
      ensures Free(texts[i], ';') && Free(texts[i], '\n') && !AllSpace(texts[i]) && texts[i] != ""
    {
      FrameTextFree(frames[|frames| - 1 - i], withLine, ';');
      FrameTextFree(frames[|frames| - 1 - i], withLine, '\n');
    }
  }

  lemma {:induction false} TerminatedEnds(texts: seq<string>)
    requires texts != []
    ensures Terminated(texts, ';') != "" && Terminated(texts, ';')[|Terminated(texts, ';')| - 1] == ';'
    ensures (forall i :: 0 <= i < |texts| ==> Free(texts[i], '\n')) ==> Free(Terminated(texts, ';'), '\n')
  {
    if |texts| > 1 {
      TerminatedEnds(texts[1..]);
    } else {
      assert texts[1..] == [];
    }
  }

  lemma {:induction false} FilledAll(texts: seq<string>)
    requires forall i :: 0 <= i < |texts| ==> texts[i] != ""
    ensures Filled(texts + [""]) == texts
  {
    if texts == [] {
      assert [] + [""] == [""] && [""][1..] == [];
    } else {
      FilledAll(texts[1..]);
      assert (texts + [""])[1..] == texts[1..] + [""];
    }
  }

  lemma TerminatedHead(texts: seq<string>)
    requires texts != []
    ensures Terminated(texts, ';') == texts[0] + ([';'] + Terminated(texts[1..], ';'))
  {
    Append(texts[0], [';'], Terminated(texts[1..], ';'));
  }

  lemma PiecesDef(line: string)
    ensures Pieces(line) == Split(Strip(line), ';')
  {
  }

  /** A stack is split into its frames and an empty piece. */
  lemma PiecesOfStack(texts: seq<string>)
    requires texts != []
    requires forall i :: 0 <= i < |texts| ==> Free(texts[i], ';') && !AllSpace(texts[i])
    ensures Pieces(Terminated(texts, ';') + "\n") == [StripLeft(texts[0])] + texts[1..] + [""]
    ensures StripLeft(texts[0]) != ""
  {
    hide *;
    var a, rest := texts[0], [';'] + Terminated(texts[1..], ';');
    var stripped := [StripLeft(a)] + texts[1..];
    TerminatedHead(texts);
    TerminatedEnds(texts);
    VisibleEnd(a + rest);
    StripLine(a + rest);
    StripLeftConcat(a, rest);
    PiecesDef(a + rest + "\n");
    PiecesOfStripped(stripped, texts);
    assert StripLeft(a) + rest == Terminated(stripped, ';');
  }

  lemma PiecesOfStripped(stripped: seq<string>, texts: seq<string>)
    requires texts != [] && stripped == [StripLeft(texts[0])] + texts[1..]
    requires forall i :: 0 <= i < |texts| ==> Free(texts[i], ';')
    ensures Terminated(stripped, ';') == StripLeft(texts[0]) + ([';'] + Terminated(texts[1..], ';'))
    ensures Split(Terminated(stripped, ';'), ';') == stripped + [""]
  {
    hide *;
    StripLeftFree(texts[0], ';');
    assert stripped[1..] == texts[1..];
    TerminatedHead(stripped);
    forall i | 0 <= i < |stripped| ensures Free(stripped[i], ';') {
      assert i > 0 ==> stripped[i] == texts[i];
    }
    SplitTerminated(stripped, ';');
  }

  lemma VisibleEnd(s: string)
    requires s != "" && s[|s| - 1] == ';'
    ensures !IsSpace(s[|s| - 1])
  {
  }

  /** The pieces of a printed record, once its line is read. */
  lemma PiecesOfMark(text: string)
    requires text == "(idle)" || text == "(failed)"
    ensures Free(text, '\n')
    ensures var pieces := Pieces(text + "\n"); Chained(pieces) && Filled(pieces) == [text]
  {
    assert text[0] == '(' && text[|text| - 1] == ')';
    StripLine(text);
    SplitFree(text, ';');
    assert [text][1..] == [];
  }

  lemma PiecesOfRecord(frames: seq<Frame>, withLine: bool)
    requires Printable(frames)
    ensures Free(RecordText(frames, withLine), '\n')
    ensures var pieces := Pieces(RecordText(frames, withLine) + "\n");
      Chained(pieces) && Filled(pieces) == RecordNames(frames, withLine)
  {
    var text := RecordText(frames, withLine);
    if frames == [] || (|frames| == 1 && frames[0].file == "(failed)") {
      PiecesOfMark(text);
    } else {
      hide Terminated, Pieces, FrameText;
      var texts := Outermost(frames, withLine);
      TextsFree(frames, withLine);
      TerminatedEnds(texts);
      PiecesOfStack(texts);
      var stripped := [StripLeft(texts[0])] + texts[1..];
      FilledAll(stripped);
      assert (stripped + [""])[|stripped|] == "" && (stripped + [""])[|stripped| - 1] == stripped[|stripped| - 1];
    }
  }

  function EntryOf(record: Record, withLine: bool): Entry {
    Entry(record.ts, Pieces(RecordText(record.frames, withLine) + "\n"))
  }

  /** The entries that printed records are read back as. */
  function Entries(records: seq<Record>, withLine: bool): (entries: seq<Entry>)
    ensures |entries| == |records|
  {
    seq(|records|, k requires 0 <= k < |records| => EntryOf(records[k], withLine))
  }

  lemma ParseTimestamp(ts: nat)
    ensures ParseNat(Strip(Decimal(ts) + "\n")) == Some(ts) && Free(Decimal(ts), '\n')
  {
    ParseDecimal(ts);
    StripLine(Decimal(ts));
    StripLeftShrinks(Decimal(ts));
  }

  lemma ReadBack(records: seq<Record>, withLine: bool)
    requires forall k :: 0 <= k < |records| ==> Printable(records[k].frames)
    ensures var r := ReadLines(EMPTY, LinesOf(Unlines(RecordLines(records, withLine))));
      && r == Some(Built(Entries(records, withLine)))
      && Adopted(r.value, |records|) && WellFormed(r.value) && |r.value.samples| == 2 * |records|
      && forall k :: 0 <= k < |records| ==>
           ReadsAs(r.value, k, RecordNames(records[k].frames, withLine))
  {
    var lines, entries := RecordLines(records, withLine), Entries(records, withLine);
    hide RecordLines, RecordText, Pieces, Chained, Filled, Decimal, Unlines, LinesOf, Strip, ParseNat, Built, WellFormed, RecordNames, ReadsAs;
    forall k | 0 <= k < |records|
      ensures Free(lines[2 * k], '\n') && Free(lines[2 * k + 1], '\n')
      ensures ParseNat(Strip(lines[2 * k] + "\n")) == Some(entries[k].ts) && Pieces(lines[2 * k + 1] + "\n") == entries[k].pieces
      ensures Chained(entries[k].pieces) && Filled(entries[k].pieces) == RecordNames(records[k].frames, withLine)
    {
      RecordLinesAt(records, withLine, k);
      ParseTimestamp(records[k].ts);
      PiecesOfRecord(records[k].frames, withLine);
    }
    forall i | 0 <= i < |lines| ensures Free(lines[i], '\n') {
      assert i == 2 * (i / 2) || i == 2 * (i / 2) + 1;
    }
    LinesOfUnlines(lines);
    ReadIsBuilt(entries, LinesOf(Unlines(lines)), 0);
    EmptyIsBuilt();
    assert entries[..0] == [] && LinesOf(Unlines(lines))[0..] == LinesOf(Unlines(lines));
    BuiltChains(entries);
    forall k | 0 <= k < |entries| ensures Sampled(entries[k].pieces) {
      ChainedIsSampled(entries[k].pieces);
    }
    BuiltWellFormed(entries);
    var c := Built(entries);
    forall k | 0 <= k < |records| ensures ReadsAs(c, k, RecordNames(records[k].frames, withLine)) {
      ChainReads(c, k, RecordNames(records[k].frames, withLine));
    }
  }

  lemma AllRead(c: Chart, records: seq<Record>, withLine: bool)
    requires forall k :: 0 <= k < |records| ==> ReadsAs(c, k, RecordNames(records[k].frames, withLine))
    ensures forall k :: 0 <= k < |records| ==> IsRead(c, k, records[k].frames, withLine)
  {
    hide ReadsAs, RecordNames, IsRead;
    forall k | 0 <= k < |records| ensures IsRead(c, k, records[k].frames, withLine) {
      RecordRead(c, k, records[k].frames, withLine);
    }
  }

  /** The part of the graph that a record is read as. */
  predicate IsRead(c: Chart, k: nat, frames: seq<Frame>, withLine: bool) {
    && |c.nodes| > 0 && c.nodes[0].children.Some? && k + 1 < |c.nodes[0].children.value| && 2 * k < |c.samples|
    && var first, last := c.nodes[0].children.value[k + 1], c.samples[2 * k];
    && 2 < first <= last <= |c.nodes|
    && var part := c.nodes[first - 1..last];
    && (frames == [] ==> |part| == 1 && part[0].name == "(idle)")
    && (|frames| == 1 && frames[0].file == "(failed)" ==> |part| == 1 && part[0].name == "(failed)")
    && (frames != [] && !(|frames| == 1 && frames[0].file == "(failed)") ==>
          |part| == |frames| && forall j :: 0 <= j < |part| ==>
            var f := frames[|frames| - 1 - j];
            var text := f.file + ":" + f.name + if withLine then ":" + Decimal(f.line) else "";
            part[j].name == (if j == 0 then StripLeft(text) else text))
    && forall j :: 0 <= j < |part| ==> part[j].children == if j < |part| - 1 then Some([first + j + 1]) else None
  }

  /** What PrintFramesTS writes, FCJson.start reads: the graph is well formed, the
      k-th record is the chain from the k-th stack of the root to samples[2k], and
      following that chain gives its names, outermost first. */
  lemma RoundTrip(records: seq<Record>, withLine: bool) returns (c: Chart)
    requires forall k :: 0 <= k < |records| ==> Printable(records[k].frames)
    ensures ReadLines(EMPTY, LinesOf(Unlines(RecordLines(records, withLine)))) == Some(c)
    ensures WellFormed(c) && c == Built(Entries(records, withLine))
    ensures forall k :: 0 <= k < |records| ==> ReadsAs(c, k, RecordNames(records[k].frames, withLine))
    ensures
      && HasRoots(c) && |c.nodes[0].children.value| == |records| + 1 && |c.samples| == 2 * |records|
      && forall k :: 0 <= k < |records| ==>
           var frames, first, last := records[k].frames, c.nodes[0].children.value[k + 1], c.samples[2 * k];
           && 2 < first <= last <= |c.nodes|
           && var part := c.nodes[first - 1..last];
           && (frames == [] ==> |part| == 1 && part[0].name == "(idle)")
           && (|frames| == 1 && frames[0].file == "(failed)" ==> |part| == 1 && part[0].name == "(failed)")
           && (frames != [] && !(|frames| == 1 && frames[0].file == "(failed)") ==>
                 |part| == |frames| && forall j :: 0 <= j < |part| ==>
                   var f := frames[|frames| - 1 - j];
                   var text := f.file + ":" + f.name + if withLine then ":" + Decimal(f.line) else "";
                   part[j].name == (if j == 0 then StripLeft(text) else text))
           && forall j :: 0 <= j < |part| ==> part[j].children == if j < |part| - 1 then Some([first + j + 1]) else None
  {
    hide ReadLines, WellFormed, ReadsAs, RecordNames, Adopted, StripLeft, Decimal, Unlines, LinesOf, RecordLines, Built, Entries, Printable;
    ReadBack(records, withLine);
    c := Built(Entries(records, withLine));
    AdoptedMeans(c, |records|);
    AllRead(c, records, withLine);
  }

  lemma AdoptedMeans(c: Chart, n: nat)
    requires Adopted(c, n)
    ensures HasRoots(c) && |c.nodes| >= 2 && c.nodes[0].children.Some?
    ensures |c.nodes[0].children.value| == n + 1 && |c.samples| == 2 * n
  {
  }

  lemma RecordRead(c: Chart, k: nat, frames: seq<Frame>, withLine: bool)
    requires ReadsAs(c, k, RecordNames(frames, withLine))
    ensures IsRead(c, k, frames, withLine)
  {
    var names := RecordNames(frames, withLine);
    RecordNamesMean(frames, withLine);
    hide RecordNames, Decimal, StripLeft, NamesFrom;
    var first, last := c.nodes[0].children.value[k + 1], c.samples[2 * k];
    var part := c.nodes[first - 1..last];
    assert Linked(part, first, names);
  }

  lemma RecordNamesMean(frames: seq<Frame>, withLine: bool)
    ensures var names := RecordNames(frames, withLine);
      && (frames == [] ==> names == ["(idle)"])
      && (|frames| == 1 && frames[0].file == "(failed)" ==> names == ["(failed)"])
      && (frames != [] && !(|frames| == 1 && frames[0].file == "(failed)") ==>
            |names| == |frames| && forall j :: 0 <= j < |names| ==>
              var f := frames[|frames| - 1 - j];
              var text := f.file + ":" + f.name + if withLine then ":" + Decimal(f.line) else "";
              names[j] == (if j == 0 then StripLeft(text) else text))
  {
    hide FrameText, Decimal, StripLeft;
    if frames != [] && !(|frames| == 1 && frames[0].file == "(failed)") {
      var names := RecordNames(frames, withLine);
      assert |names| == |frames|;
      hide RecordNames;
      forall j | 0 <= j < |names|
        ensures var f := frames[|frames| - 1 - j];
          var text := f.file + ":" + f.name + if withLine then ":" + Decimal(f.line) else "";
          names[j] == (if j == 0 then StripLeft(text) else text)
      {
        NameAt(frames, withLine, j);
      }
    }
  }

  lemma NameAt(frames: seq<Frame>, withLine: bool, j: nat)
    requires j < |frames| && !(|frames| == 1 && frames[0].file == "(failed)")
    ensures |RecordNames(frames, withLine)| == |frames|
    ensures var f := frames[|frames| - 1 - j];
      var text := f.file + ":" + f.name + if withLine then ":" + Decimal(f.line) else "";
      RecordNames(frames, withLine)[j] == (if j == 0 then StripLeft(text) else text)
  {
    hide FrameText, Decimal, StripLeft;
    FrameTextMeans(frames[|frames| - 1 - j], withLine);
  }

  lemma EmptyIsBuilt()
    ensures Built([]) == EMPTY
  {
  }

  lemma ChainedIsSampled(pieces: seq<string>)
    requires pieces != [] && Chained(pieces)
    ensures Sampled(pieces)
  {
  }
}
