/** The best-first search of the dijkstra.py workload: eight-neighbour paths on a
    grid with filled cells. */
module GridSearch {
  import opened Wrappers

  datatype Point = Point(x: int, y: int)

  /** A candidate is ordered by its distance first and then by its point, as the
      tuples of the original are. */
  datatype Candidate = Candidate(d: int, point: Point)

  datatype Graph = Graph(width: int, height: int, initial: Point, goal: Point, filled: set<Point>) {

    predicate InGrid(p: Point) {
      if p.x < 0 || p.y < 0 then false
      else if p.x >= width || p.y >= height then false
      else true
    }

    predicate Contains(p: Point) { p in filled }

    function Dist(p: Point): int {
      var dx, dy := goal.x - p.x, goal.y - p.y;
      dx * dx + dy * dy
    }

    predicate Open(p: Point) { InGrid(p) && !Contains(p) }

    /** A move to one of the eight neighbours, onto an open cell. */
    predicate Move(p: Point, q: Point) {
      p != q && -1 <= q.x - p.x <= 1 && -1 <= q.y - p.y <= 1 && Open(q)
    }

    /** The cells of a path after the first are open and each is one move on. */
    predicate IsPath(path: seq<Point>) {
      path != [] && forall i :: 0 <= i < |path| - 1 ==> Move(path[i], path[i + 1])
    }

    predicate IsSimple(path: seq<Point>) {
      forall i, j :: 0 <= i < j < |path| ==> path[i] != path[j]
    }

    /** A simple path from initial to goal. */
    predicate IsSolution(path: seq<Point>) {
      IsPath(path) && IsSimple(path) && path[0] == initial && path[|path| - 1] == goal
    }
  }

  /** A path in plain words: each cell after the first is a neighbour of the one
      before, inside the grid and not filled. */
  lemma PathMeans(g: Graph, path: seq<Point>)
    ensures g.IsPath(path) <==> path != [] && forall i :: 1 <= i < |path| ==>
      && path[i] != path[i - 1] && -1 <= path[i].x - path[i - 1].x <= 1 && -1 <= path[i].y - path[i - 1].y <= 1
      && 0 <= path[i].x < g.width && 0 <= path[i].y < g.height && path[i] !in g.filled
  {
    if g.IsPath(path) {
      forall i | 1 <= i < |path|
        ensures path[i] != path[i - 1] && -1 <= path[i].x - path[i - 1].x <= 1 && -1 <= path[i].y - path[i - 1].y <= 1
        ensures 0 <= path[i].x < g.width && 0 <= path[i].y < g.height && path[i] !in g.filled
      {
        var j := i - 1;
        assert g.Move(path[j], path[j + 1]);
      }
    } else if path != [] {
      var i :| 0 <= i < |path| - 1 && !g.Move(path[i], path[i + 1]);
      var j := i + 1;
      assert path[j - 1] == path[i] && !g.Move(path[j - 1], path[j]);
    }
  }

  type Via = map<Point, Option<Point>>

  predicate Before(a: Candidate, b: Candidate) {
    a.d < b.d || (a.d == b.d && (a.point.x < b.point.x || (a.point.x == b.point.x && a.point.y <= b.point.y)))
  }

  /** candidates.sort(reverse=True) and pop(): the least candidate leaves the list. */
  method PopLeast(candidates: seq<Candidate>) returns (least: Candidate, rest: seq<Candidate>)
    requires candidates != []
    ensures multiset(candidates) == multiset(rest) + multiset{least}
    ensures forall c :: c in candidates ==>
      least.d < c.d || (least.d == c.d && (least.point.x < c.point.x || (least.point.x == c.point.x && least.point.y <= c.point.y)))
  {
    var k := 0;
    for i := 1 to |candidates|
      invariant k < |candidates|
      invariant forall j :: 0 <= j < i ==> Before(candidates[k], candidates[j])
    {
      if Before(candidates[i], candidates[k]) {
        k := i;
      }
    }
    least := candidates[k];
    rest := candidates[..k] + candidates[k + 1..];
    assert candidates == candidates[..k] + [least] + candidates[k + 1..];
  }

  // --- The search tree ---

  /** How via was built: order lists its cells, first the initial one, and each
      later cell is one move away from an earlier one, its parent. */
  ghost predicate Tree(g: Graph, via: Via, order: seq<Point>) {
    && order != [] && order[0] == g.initial
    && (forall p :: p in via <==> p in order)
    && g.IsSimple(order)
    && via[g.initial] == None
    && forall i :: 1 <= i < |order| ==> HasParent(g, via, order, i)
  }

  ghost predicate HasParent(g: Graph, via: Via, order: seq<Point>, i: nat)
    requires 1 <= i < |order|
  {
    && order[i] in via && via[order[i]].Some?
    && exists k :: 0 <= k < i && via[order[i]] == Some(order[k]) && g.Move(order[k], order[i])
  }

  lemma TreeGrows(g: Graph, via: Via, order: seq<Point>, p: Point, q: Point)
    requires Tree(g, via, order) && p in via && q !in via && g.Move(p, q)
    ensures Tree(g, via[q := Some(p)], order + [q])
  {
    var via', order' := via[q := Some(p)], order + [q];
    forall i | 1 <= i < |order'| ensures HasParent(g, via', order', i) {
      if i < |order| {
        assert HasParent(g, via, order, i);
        var k :| 0 <= k < i && via[order[i]] == Some(order[k]) && g.Move(order[k], order[i]);
        assert via'[order'[i]] == Some(order'[k]);
      } else {
        var k :| 0 <= k < |order| && order[k] == p;
        assert via'[order'[i]] == Some(order'[k]);
      }
    }
  }

  lemma TreeHasInitial(g: Graph, via: Via, order: seq<Point>)
    requires Tree(g, via, order)
    ensures g.initial in via
  {
  }

  predicate Waits(candidates: seq<Candidate>, p: Point) {
    exists i :: 0 <= i < |candidates| && candidates[i].point == p
  }

  /** Every candidate is a cell of the tree with its distance. */
  ghost predicate Priced(g: Graph, via: Via, candidates: seq<Candidate>) {
    forall i :: 0 <= i < |candidates| ==>
      candidates[i].point in via && candidates[i].point != g.initial && candidates[i].d == g.Dist(candidates[i].point)
  }

  /** Every cell of the tree that does not wait has all its moves in the tree. */
  ghost predicate Closed(g: Graph, via: Via, candidates: seq<Candidate>) {
    forall p, q :: p in via && !Waits(candidates, p) && g.Move(p, q) ==> q in via
  }

  /** The tree only gains open cells, and each of them waits. */
  ghost predicate Grown(g: Graph, via: Via, candidates: seq<Candidate>, via': Via, candidates': seq<Candidate>) {
    && via.Keys <= via'.Keys && candidates <= candidates' && (via'.Keys == via.Keys ==> candidates' == candidates)
    && forall q :: q in via' && q !in via ==> g.Open(q) && Waits(candidates', q)
  }

  /** The loop over the eight neighbours: every move from point is in the tree
      afterwards, and each new cell becomes a candidate once. */
  method Expand(g: Graph, via: Via, candidates: seq<Candidate>, point: Point, ghost order: seq<Point>)
    returns (via': Via, candidates': seq<Candidate>, ghost order': seq<Point>)
    requires Tree(g, via, order) && Priced(g, via, candidates) && point in via
    ensures Tree(g, via', order') && Priced(g, via', candidates')
    ensures Grown(g, via, candidates, via', candidates')
    ensures forall q :: g.Move(point, q) ==> q in via'
  {
    hide Tree, Waits;
    via', candidates', order' := via, candidates, order;
    TreeHasInitial(g, via, order);
    for xx := -1 to 2
      invariant Tree(g, via', order') && Priced(g, via', candidates')
      invariant Grown(g, via, candidates, via', candidates')
      invariant forall q :: g.Move(point, q) && q.x - point.x < xx ==> q in via'
    {
      for yy := -1 to 2
        invariant Tree(g, via', order') && Priced(g, via', candidates')
        invariant Grown(g, via, candidates, via', candidates')
        invariant forall q :: g.Move(point, q) && q.x - point.x < xx ==> q in via'
        invariant forall q :: g.Move(point, q) && q.x - point.x == xx && q.y - point.y < yy ==> q in via'
      {
        var q := Point(point.x + xx, point.y + yy);
        if g.InGrid(q) && !g.Contains(q) && q !in via' {
          TreeGrows(g, via', order', point, q);
          TreeHasInitial(g, via', order');
          Queue(candidates', Candidate(g.Dist(q), q));
          candidates' := candidates' + [Candidate(g.Dist(q), q)];
          via' := via'[q := Some(point)];
          order' := order' + [q];
        }
      }
    }
  }

  /** The squared distance to the goal, for each cell that waits. */
  lemma PricedMeans(g: Graph, via: Via, candidates: seq<Candidate>, i: nat)
    requires Priced(g, via, candidates) && i < |candidates|
    ensures var c := candidates[i];
      c.d == (g.goal.x - c.point.x) * (g.goal.x - c.point.x) + (g.goal.y - c.point.y) * (g.goal.y - c.point.y)
  {
  }

  lemma Queue(candidates: seq<Candidate>, c: Candidate)
    ensures Waits(candidates + [c], c.point)
    ensures forall p :: Waits(candidates, p) ==> Waits(candidates + [c], p)
  {
    assert (candidates + [c])[|candidates|] == c;
    assert forall i :: 0 <= i < |candidates| ==> (candidates + [c])[i] == candidates[i];
  }

  // --- The path back ---

  predicate Decreasing(ranks: seq<nat>) {
    forall i, j :: 0 <= i < j < |ranks| ==> ranks[j] < ranks[i]
  }

  function Reverse(s: seq<Point>): (r: seq<Point>)
    ensures |r| == |s| && forall i :: 0 <= i < |s| ==> r[i] == s[|s| - 1 - i]
  {
    seq(|s|, i requires 0 <= i < |s| => s[|s| - 1 - i])
  }

  /** steps goes back from goal, each to the cell it was reached from; ranks are
      the positions of its cells in the order in which they were found. */
  ghost predicate GoesBack(g: Graph, order: seq<Point>, steps: seq<Point>, ranks: seq<nat>) {
    && |ranks| == |steps| >= 1 && Decreasing(ranks) && steps[0] == g.goal
    && (forall i :: 0 <= i < |steps| ==> ranks[i] < |order| && order[ranks[i]] == steps[i])
    && forall i :: 0 <= i < |steps| - 1 ==> g.Move(steps[i + 1], steps[i])
  }

  lemma StepBack(g: Graph, order: seq<Point>, steps: seq<Point>, ranks: seq<nat>, next: Point, k: nat)
    requires GoesBack(g, order, steps, ranks)
    requires k < ranks[|ranks| - 1] && order[k] == next && g.Move(next, steps[|steps| - 1])
    ensures GoesBack(g, order, steps + [next], ranks + [k])
  {
  }

  lemma BackIsSolution(g: Graph, order: seq<Point>, steps: seq<Point>, ranks: seq<nat>)
    requires GoesBack(g, order, steps, ranks) && g.IsSimple(order) && steps[|steps| - 1] == g.initial
    ensures g.IsSolution(Reverse(steps))
  {
    var path, n := Reverse(steps), |steps|;
    forall i | 0 <= i < n - 1 ensures g.Move(path[i], path[i + 1]) {
      assert g.Move(steps[n - 2 - i + 1], steps[n - 2 - i]);
    }
    forall i, j | 0 <= i < j < n ensures path[i] != path[j] {
      assert ranks[n - 1 - i] < ranks[n - 1 - j];
    }
  }

  /** The walk from goal back through via, which ends because every parent was
      found before its child. */
  method WalkBack(g: Graph, via: Via, ghost order: seq<Point>) returns (solution: seq<Point>)
    requires Tree(g, via, order) && g.goal in via && g.goal != g.initial
    ensures g.IsSolution(solution)
  {
    hide GoesBack;
    var point := g.goal;
    solution := [point];
    ghost var k: nat :| k < |order| && order[k] == point;
    ghost var ranks: seq<nat> := [k];
    StartBack(g, order, k);
    while true
      invariant 1 <= k < |order| && order[k] == point
      invariant GoesBack(g, order, solution, ranks)
      invariant |ranks| == |solution| >= 1 && ranks[|ranks| - 1] == k && solution[|solution| - 1] == point
      decreases k
    {
      assert HasParent(g, via, order, k);
      var next := via[point].value;
      ghost var j: nat :| j < k && next == order[j] && g.Move(next, point);
      StepBack(g, order, solution, ranks, next, j);
      solution := solution + [next];
      ranks, k := ranks + [j], j;
      if next == g.initial {
        break;
      }
      point := next;
    }
    BackIsSolution(g, order, solution, ranks);
    solution := Reverse(solution);
  }

  lemma StartBack(g: Graph, order: seq<Point>, k: nat)
    requires k < |order| && order[k] == g.goal
    ensures GoesBack(g, order, [g.goal], [k])
  {
  }

  // --- The search ---

  ghost function Unseen(g: Graph, via: Via): set<Point> {
    (set x, y | 0 <= x < g.width && 0 <= y < g.height && Point(x, y) !in via :: Point(x, y))
  }

  /** A path that starts in a closed tree stays in it. */
  lemma {:induction false} PathStays(g: Graph, via: Via, path: seq<Point>)
    requires Closed(g, via, []) && g.IsPath(path) && path[0] in via
    ensures path[|path| - 1] in via
    decreases |path|
  {
    if |path| > 1 {
      var front := path[..|path| - 1];
      assert g.IsPath(front);
      PathStays(g, via, front);
      assert g.Move(path[|path| - 2], path[|path| - 1]) && !Waits([], path[|path| - 2]);
    }
  }

  /** The search finds a simple path when there is any path from initial to a
      different goal, and None otherwise. */
  method Dijkstra(g: Graph) returns (solution: Option<seq<Point>>)
    ensures solution.Some? ==>
      && g.goal != g.initial && g.IsPath(solution.value)
      && solution.value[0] == g.initial && solution.value[|solution.value| - 1] == g.goal
      && forall i, j :: 0 <= i < j < |solution.value| ==> solution.value[i] != solution.value[j]
    ensures solution.None? ==> g.goal == g.initial || forall path ::
      g.IsPath(path) && path[0] == g.initial ==> path[|path| - 1] != g.goal
  {
    hide Tree, Priced, Grown, Closed, Unseen, Waits;
    var via: Via := map[g.initial := None];
    var candidates: seq<Candidate> := [];
    ghost var order := [g.initial];
    SeedTree(g, via);
    ghost var seed := via;
    via, candidates, order := Expand(g, via, candidates, g.initial, order);
    SeedGrown(g, seed, via, candidates);
    while candidates != []
      invariant Tree(g, via, order) && Priced(g, via, candidates) && Closed(g, via, candidates)
      invariant g.goal in via && g.goal != g.initial ==> Waits(candidates, g.goal)
      decreases Unseen(g, via), |candidates|
    {
      var c, rest := PopLeast(candidates);
      Popped(candidates, c, rest);
      PopPriced(g, via, candidates, c, rest);
      if c.d == 0 {
        OnlyGoalIsZero(g, c.point);
        var path := WalkBack(g, via, order);
        return Some(path);
      }
      OnlyGoalIsZero(g, c.point);
      ghost var seen, waited := via, candidates;
      via, candidates, order := Expand(g, via, rest, c.point, order);
      ClosedAgain(g, seen, waited, c.point, rest, via, candidates);
    }
    if g.goal != g.initial {
      NobodyWaits(g.goal);
      TreeHasInitial(g, via, order);
      forall path | g.IsPath(path) && path[0] == g.initial ensures path[|path| - 1] != g.goal {
        PathStays(g, via, path);
      }
    }
    return None;
  }

  lemma SeedTree(g: Graph, via: Via)
    requires via == map[g.initial := None]
    ensures Tree(g, via, [g.initial]) && Priced(g, via, [])
  {
  }

  lemma SeedGrown(g: Graph, seed: Via, via: Via, candidates: seq<Candidate>)
    requires seed == map[g.initial := None] && Grown(g, seed, [], via, candidates)
    requires forall q :: g.Move(g.initial, q) ==> q in via
    ensures Closed(g, via, candidates)
    ensures g.goal in via && g.goal != g.initial ==> Waits(candidates, g.goal)
  {
  }

  lemma NobodyWaits(p: Point)
    ensures !Waits([], p)
  {
  }

  lemma PopPriced(g: Graph, via: Via, candidates: seq<Candidate>, c: Candidate, rest: seq<Candidate>)
    requires Priced(g, via, candidates) && c in candidates && forall d :: d in rest ==> d in candidates
    ensures Priced(g, via, rest) && c.point in via && c.point != g.initial && c.d == g.Dist(c.point)
  {
    forall i | 0 <= i < |rest|
      ensures rest[i].point in via && rest[i].point != g.initial && rest[i].d == g.Dist(rest[i].point)
    {
      assert rest[i] in candidates;
    }
  }

  /** After a cell is popped and expanded the tree is closed again, and it has
      gained cells or lost a candidate. */
  lemma ClosedAgain(g: Graph, via: Via, candidates: seq<Candidate>, point: Point, rest: seq<Candidate>,
                    via': Via, candidates': seq<Candidate>)
    requires Closed(g, via, candidates) && Grown(g, via, rest, via', candidates') && |candidates| == |rest| + 1
    requires forall p :: Waits(candidates, p) ==> p == point || Waits(rest, p)
    requires forall q :: g.Move(point, q) ==> q in via'
    requires g.goal in via && g.goal != g.initial ==> Waits(candidates, g.goal)
    ensures Closed(g, via', candidates')
    ensures g.goal in via' && g.goal != g.initial && g.goal != point ==> Waits(candidates', g.goal)
    ensures Unseen(g, via') < Unseen(g, via) || (Unseen(g, via') == Unseen(g, via) && |candidates'| < |candidates|)
  {
    forall p | Waits(rest, p) ensures Waits(candidates', p) {
      var i :| 0 <= i < |rest| && rest[i].point == p;
      assert candidates'[i].point == p;
    }
    if via'.Keys != via.Keys {
      var q :| q in via' && q !in via;
      assert q == Point(q.x, q.y);
      assert q in Unseen(g, via) && q !in Unseen(g, via');
    }
  }

  lemma Popped(candidates: seq<Candidate>, c: Candidate, rest: seq<Candidate>)
    requires multiset(candidates) == multiset(rest) + multiset{c}
    ensures |candidates| == |rest| + 1 && c in candidates
    ensures forall d :: d in rest ==> d in candidates
    ensures forall p :: Waits(candidates, p) ==> p == c.point || Waits(rest, p)
  {
    assert |multiset(candidates)| == |multiset(rest)| + 1;
    assert c in multiset(candidates);
    forall d | d in rest ensures d in candidates {
      assert d in multiset(candidates);
    }
    forall p | Waits(candidates, p) ensures p == c.point || Waits(rest, p) {
      var i :| 0 <= i < |candidates| && candidates[i].point == p;
      assert candidates[i] in multiset(candidates);
      assert candidates[i] == c || candidates[i] in multiset(rest);
    }
  }

  lemma OnlyGoalIsZero(g: Graph, p: Point)
    ensures g.Dist(p) == 0 <==> p == g.goal
  {
    var dx, dy := g.goal.x - p.x, g.goal.y - p.y;
    assert dx * dx >= 0 && dy * dy >= 0;
    assert dx != 0 ==> dx * dx > 0;
    assert dy != 0 ==> dy * dy > 0;
  }
}
