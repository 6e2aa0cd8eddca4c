/**
 * `tree_dist` of `src/read_taxo.py`: a breadth-first search from `u` over an
 * adjacency list, returning the recorded distance of `v`; a node the search
 * never reaches keeps distance 0.
 */
module ShortestPath {

  /** Node ids are `0 .. n-1` and every neighbour is one of them. */
  predicate ValidAdjacency(adj: seq<seq<int>>)
  {
    forall x, k :: 0 <= x < |adj| && 0 <= k < |adj[x]| ==> 0 <= adj[x][k] < |adj|
  }

  /** `y` can be reached from `u` in at most `k` steps. */
  ghost predicate Reach(adj: seq<seq<int>>, u: int, y: int, k: nat)
    decreases k
  {
    if k == 0 then y == u
    else Reach(adj, u, y, k - 1) || exists x :: 0 <= x < |adj| && Reach(adj, u, x, k - 1) && y in adj[x]
  }

  /** `y` can be reached from `u` at all. */
  ghost predicate Reachable(adj: seq<seq<int>>, u: int, y: int)
  {
    exists k: nat :: Reach(adj, u, y, k)
  }

  /** `d` is the length of a shortest path from `u` to `y`. */
  ghost predicate IsDist(adj: seq<seq<int>>, u: int, y: int, d: nat)
  {
    Reach(adj, u, y, d) && (d == 0 || !Reach(adj, u, y, d - 1))
  }

  /** The number of unvisited nodes. */
  function CountFalse(s: seq<bool>): (r: nat)
    ensures r <= |s|
  {
    if |s| == 0 then 0 else (if s[0] then 0 else 1) + CountFalse(s[1..])
  }

  /** Before the search starts every node is unvisited. */
  lemma {:induction false} CountFalseNone(n: nat)
    ensures CountFalse(seq(n, _ => false)) == n
    decreases n
  {
    if n > 0 {
      assert seq(n, _ => false)[1..] == seq(n - 1, _ => false);
      CountFalseNone(n - 1);
    }
  }

  /** Marking an unvisited node lowers the unvisited count by exactly one. */
  lemma {:induction false} CountFalseMark(s: seq<bool>, i: int)
    requires 0 <= i < |s| && !s[i]
    ensures CountFalse(s[i := true]) == CountFalse(s) - 1
    decreases |s|
  {
    if i > 0 {
      assert s[i := true][1..] == s[1..][i - 1 := true];
      CountFalseMark(s[1..], i - 1);
    } else {
      assert s[i := true][1..] == s[1..];
    }
  }

  /** What is reachable in `k` steps is reachable in any `m >= k` steps. */
  lemma {:induction false} ReachMono(adj: seq<seq<int>>, u: int, y: int, k: nat, m: nat)
    requires k <= m && Reach(adj, u, y, k)
    ensures Reach(adj, u, y, m)
    decreases m - k
  {
    if k < m {
      ReachMono(adj, u, y, k + 1, m);
    }
  }

  /** A shortest distance is at most the length of any path. */
  lemma DistLeast(adj: seq<seq<int>>, u: int, y: int, d: nat, e: nat)
    requires IsDist(adj, u, y, d) && Reach(adj, u, y, e)
    ensures d <= e
  {
    if e < d {
      ReachMono(adj, u, y, e, d - 1);
    }
  }

  /** The shortest distance is unique. */
  lemma DistUnique(adj: seq<seq<int>>, u: int, y: int, d: nat, e: nat)
    requires IsDist(adj, u, y, d) && IsDist(adj, u, y, e)
    ensures d == e
  {
    DistLeast(adj, u, y, d, e);
    DistLeast(adj, u, y, e, d);
  }

  /** The search state: the visited flags mark exactly the distinct nodes of `order`. */
  ghost predicate Marked(n: nat, visited: seq<bool>, order: seq<int>)
  {
    && |visited| == n
    && (forall j :: 0 <= j < |order| ==> 0 <= order[j] < n)
    && (forall i, j :: 0 <= i < j < |order| ==> order[i] != order[j])
    && (forall y :: 0 <= y < n ==> (visited[y] <==> y in order))
  }

  /** Every node in `order` carries its shortest distance, in non-decreasing order. */
  ghost predicate Layered(adj: seq<seq<int>>, u: int, dist: seq<int>, order: seq<int>)
    requires |dist| == |adj|
    requires forall j :: 0 <= j < |order| ==> 0 <= order[j] < |adj|
  {
    && (forall j :: 0 <= j < |order| ==> dist[order[j]] >= 0 && IsDist(adj, u, order[j], dist[order[j]]))
    && (forall i, j :: 0 <= i <= j < |order| ==> dist[order[i]] <= dist[order[j]])
  }

  lemma MarkedAppend(n: nat, visited: seq<bool>, order: seq<int>, i: int)
    requires Marked(n, visited, order) && 0 <= i < n && !visited[i]
    ensures Marked(n, visited[i := true], order + [i])
  {
    var order' := order + [i];
    forall y | 0 <= y < n
      ensures visited[i := true][y] <==> y in order'
    {
      assert y in order' <==> y in order || y == i;
    }
  }

  lemma LayeredAppend(adj: seq<seq<int>>, u: int, dist: seq<int>, order: seq<int>, i: int, d: nat)
    requires |dist| == |adj| && 0 <= i < |adj| && i !in order
    requires forall j :: 0 <= j < |order| ==> 0 <= order[j] < |adj|
    requires Layered(adj, u, dist, order)
    requires IsDist(adj, u, i, d)
    requires |order| > 0 ==> dist[order[|order| - 1]] <= d
    ensures Layered(adj, u, dist[i := d], order + [i])
  {
    var order' := order + [i];
    var dist' := dist[i := d];
    assert forall j :: 0 <= j < |order| ==> order'[j] == order[j] && order[j] != i;
    assert forall j :: 0 <= j < |order| ==> dist'[order[j]] == dist[order[j]];
  }

  /**
   * The state after part of the inner loop relates to the state before it:
   * old entries keep their distances, new ones are one step beyond `x`, and
   * visited flags only ever get set.
   */
  ghost predicate Grown(adj: seq<seq<int>>, u: int, x: int, visited: seq<bool>, dist: seq<int>, order: seq<int>,
                        visited': seq<bool>, dist': seq<int>, order': seq<int>)
    requires 0 <= x < |adj| && |dist| == |adj| && Marked(|adj|, visited, order)
  {
    && |dist'| == |adj| && Marked(|adj|, visited', order') && Layered(adj, u, dist', order')
    && |order'| >= |order| && order'[..|order|] == order
    && (forall j :: 0 <= j < |order| ==> dist'[order[j]] == dist[order[j]])
    && (forall j :: |order| <= j < |order'| ==> dist'[order'[j]] == dist[x] + 1)
    && (forall y :: 0 <= y < |adj| && visited[y] ==> visited'[y])
    && (forall y :: 0 <= y < |adj| && !visited'[y] ==> dist'[y] == 0)
    && CountFalse(visited') + |order'| == CountFalse(visited) + |order|
  }

  /** Visiting one unvisited neighbour `i` of `x` keeps the relation. */
  lemma GrownVisit(adj: seq<seq<int>>, u: int, x: int, visited: seq<bool>, dist: seq<int>, order: seq<int>,
                   visited': seq<bool>, dist': seq<int>, order': seq<int>, i: int)
    requires 0 <= x < |adj| && |dist| == |adj| && Marked(|adj|, visited, order)
    requires Grown(adj, u, x, visited, dist, order, visited', dist', order')
    requires x in order && dist[x] >= 0 && dist[order[|order| - 1]] <= dist[x] + 1
    requires 0 <= i < |adj| && !visited'[i] && IsDist(adj, u, i, dist[x] + 1)
    ensures Grown(adj, u, x, visited, dist, order, visited'[i := true], dist'[i := dist[x] + 1], order' + [i])
  {
    LastWithinStep(adj, u, x, visited, dist, order, visited', dist', order');
    CountFalseMark(visited', i);
    MarkedAppend(|adj|, visited', order', i);
    LayeredAppend(adj, u, dist', order', i, dist[x] + 1);
    VisitKeepsHistory(adj, u, x, visited, dist, order, visited', dist', order', i);
  }

  /** The last entry of the grown queue is at most one step beyond `x`. */
  lemma LastWithinStep(adj: seq<seq<int>>, u: int, x: int, visited: seq<bool>, dist: seq<int>, order: seq<int>,
                       visited': seq<bool>, dist': seq<int>, order': seq<int>)
    requires 0 <= x < |adj| && |dist| == |adj| && Marked(|adj|, visited, order)
    requires Grown(adj, u, x, visited, dist, order, visited', dist', order')
    requires |order| > 0 && dist[order[|order| - 1]] <= dist[x] + 1
    ensures dist'[order'[|order'| - 1]] <= dist[x] + 1
  {
    var last := order'[|order'| - 1];
    if |order'| > |order| {
      assert dist'[last] == dist[x] + 1;
    } else {
      assert last == order[|order| - 1];
    }
  }

  lemma VisitKeepsHistory(adj: seq<seq<int>>, u: int, x: int, visited: seq<bool>, dist: seq<int>, order: seq<int>,
                          visited': seq<bool>, dist': seq<int>, order': seq<int>, i: int)
    requires 0 <= x < |adj| && |dist| == |adj| && Marked(|adj|, visited, order)
    requires Grown(adj, u, x, visited, dist, order, visited', dist', order')
    requires 0 <= i < |adj| && !visited'[i]
    ensures (order' + [i])[..|order|] == order
    ensures forall j :: 0 <= j < |order| ==> dist'[i := dist[x] + 1][order[j]] == dist[order[j]]
    ensures forall j :: |order| <= j < |order'| + 1 ==> dist'[i := dist[x] + 1][(order' + [i])[j]] == dist[x] + 1
    ensures forall y :: 0 <= y < |adj| && visited[y] ==> visited'[i := true][y]
  {
    var o2 := order' + [i];
    assert o2[..|order'|] == order';
    assert forall j :: 0 <= j < |order| ==> order[j] != i;
  }

  /** Before the inner loop nothing has grown yet. */
  lemma GrownStart(adj: seq<seq<int>>, u: int, x: int, visited: seq<bool>, dist: seq<int>, order: seq<int>)
    requires 0 <= x < |adj| && |dist| == |adj|
    requires Marked(|adj|, visited, order) && Layered(adj, u, dist, order)
    requires forall y :: 0 <= y < |adj| && !visited[y] ==> dist[y] == 0
    ensures Grown(adj, u, x, visited, dist, order, visited, dist, order)
  {
    assert order[..|order|] == order;
  }

  /** A neighbour of a queued `x` that is not within `x`'s distance lies exactly one step further. */
  lemma NextLayer(adj: seq<seq<int>>, u: int, x: int, dist: seq<int>, order: seq<int>, i: int)
    requires |dist| == |adj| && 0 <= x < |adj|
    requires forall j :: 0 <= j < |order| ==> 0 <= order[j] < |adj|
    requires Layered(adj, u, dist, order) && x in order
    requires i in adj[x] && !Reach(adj, u, i, dist[x])
    ensures dist[x] >= 0 && IsDist(adj, u, i, dist[x] + 1)
  {
    var j :| 0 <= j < |order| && order[j] == x;
    assert Reach(adj, u, x, dist[x]);
  }

  /** What the inner loop may assume about the state it starts from when it scans `x`. */
  ghost predicate Ready(adj: seq<seq<int>>, u: int, x: int, visited: seq<bool>, dist: seq<int>, order: seq<int>)
  {
    && ValidAdjacency(adj) && 0 <= x < |adj| && |dist| == |adj|
    && Marked(|adj|, visited, order) && Layered(adj, u, dist, order)
    && x in order && dist[order[|order| - 1]] <= dist[x] + 1
    && (forall y :: 0 <= y < |adj| && Reach(adj, u, y, dist[x]) ==> visited[y])
    && (forall y :: 0 <= y < |adj| && !visited[y] ==> dist[y] == 0)
  }

  /** The body of the inner loop for an unvisited neighbour `i`: mark it, record its distance, enqueue it. */
  method Visit(adj: seq<seq<int>>, u: int, x: int, visited: seq<bool>, dist: seq<int>, order: seq<int>,
               visited1: seq<bool>, dist1: seq<int>, order1: seq<int>, i: int)
    returns (visited2: seq<bool>, dist2: seq<int>, order2: seq<int>)
    requires Ready(adj, u, x, visited, dist, order)
    requires Grown(adj, u, x, visited, dist, order, visited1, dist1, order1)
    requires i in adj[x] && !visited1[i]
    ensures Grown(adj, u, x, visited, dist, order, visited2, dist2, order2)
    ensures |visited2| == |adj| && visited2[i]
    ensures forall y :: 0 <= y < |adj| && visited1[y] ==> visited2[y]
  {
    assert !visited[i];
    NextLayer(adj, u, x, dist, order, i);
    GrownVisit(adj, u, x, visited, dist, order, visited1, dist1, order1, i);
    visited2, dist2, order2 := visited1[i := true], dist1[i := dist[x] + 1], order1 + [i];
  }

  /**
   * The inner `for` loop of `tree_dist`: every unvisited neighbour of `x`
   * gets distance `dist[x] + 1` and joins the queue.
   */
  method Expand(adj: seq<seq<int>>, u: int, x: int, visited: seq<bool>, dist: seq<int>, order: seq<int>)
    returns (visited': seq<bool>, dist': seq<int>, order': seq<int>)
    requires Ready(adj, u, x, visited, dist, order)
    ensures Grown(adj, u, x, visited, dist, order, visited', dist', order')
    ensures forall y :: y in adj[x] ==> visited'[y]
  {
    visited', dist', order' := visited, dist, order;
    GrownStart(adj, u, x, visited, dist, order);
    var t := 0;
    while t < |adj[x]|
      invariant 0 <= t <= |adj[x]|
      invariant Grown(adj, u, x, visited, dist, order, visited', dist', order')
      invariant forall k :: 0 <= k < t ==> visited'[adj[x][k]]
    {
      var i := adj[x][t];
      if !visited'[i] {
        visited', dist', order' := Visit(adj, u, x, visited, dist, order, visited', dist', order', i);
      }
      t := t + 1;
    }
  }

  /**
   * The invariant of the `while` loop of `tree_dist`, with the queue being
   * `order[head..]`: the nodes before `head` have all their neighbours
   * visited, and every node within the distance of the queue's front is.
   */
  ghost predicate Searching(adj: seq<seq<int>>, u: int, visited: seq<bool>, dist: seq<int>, order: seq<int>, head: int)
  {
    && ValidAdjacency(adj)
    && |dist| == |adj| && Marked(|adj|, visited, order) && Layered(adj, u, dist, order)
    && 0 <= head <= |order| && |order| > 0 && order[0] == u
    && (forall j, y :: 0 <= j < head && y in adj[order[j]] ==> visited[y])
    && (head < |order| ==> dist[order[|order| - 1]] <= dist[order[head]] + 1)
    && (head < |order| ==> forall y :: 0 <= y < |adj| && Reach(adj, u, y, dist[order[head]]) ==> visited[y])
    && (forall y :: 0 <= y < |adj| && !visited[y] ==> dist[y] == 0)
  }

  /** Every node of `order` is one of the listed ids; `i` finds it. */
  lemma IndexOf(order: seq<int>, z: int) returns (j: int)
    requires z in order
    ensures 0 <= j < |order| && order[j] == z
  {
    j :| 0 <= j < |order| && order[j] == z;
  }

  /**
   * Once the front of the queue moves one layer out, every node within the
   * new distance is visited: its predecessor was within the old one and has
   * left the queue with all its neighbours visited.
   */
  lemma NextLayerVisited(adj: seq<seq<int>>, u: int, visited: seq<bool>, dist: seq<int>, order: seq<int>, head: int, e: nat)
    requires ValidAdjacency(adj)
    requires |dist| == |adj| && Marked(|adj|, visited, order) && Layered(adj, u, dist, order)
    requires 0 <= head < |order| && e > 0 && dist[order[head]] == e
    requires forall j, y :: 0 <= j < head && y in adj[order[j]] ==> visited[y]
    requires forall y :: 0 <= y < |adj| && Reach(adj, u, y, e - 1) ==> visited[y]
    ensures forall y :: 0 <= y < |adj| && Reach(adj, u, y, e) ==> visited[y]
  {
    forall y | 0 <= y < |adj| && Reach(adj, u, y, e) && !Reach(adj, u, y, e - 1)
      ensures visited[y]
    {
      var z :| 0 <= z < |adj| && Reach(adj, u, z, e - 1) && y in adj[z];
      var j := IndexOf(order, z);
      DistLeast(adj, u, z, dist[z], e - 1);
    }
  }

  /** Once `x = order[head]` has all its neighbours visited, it joins the closed prefix. */
  lemma ClosureStep(adj: seq<seq<int>>, visited: seq<bool>, order: seq<int>, head: int,
                    visited': seq<bool>, order': seq<int>)
    requires ValidAdjacency(adj) && |visited| == |adj| && |visited'| == |adj|
    requires 0 <= head < |order| <= |order'| && order'[..|order|] == order
    requires forall j :: 0 <= j < |order| ==> 0 <= order[j] < |adj|
    requires forall j, y :: 0 <= j < head && y in adj[order[j]] ==> visited[y]
    requires forall y :: 0 <= y < |adj| && visited[y] ==> visited'[y]
    requires forall y :: y in adj[order[head]] ==> visited'[y]
    ensures forall j, y :: 0 <= j < head + 1 && y in adj[order'[j]] ==> visited'[y]
  {
    assert forall j :: 0 <= j < |order| ==> order'[j] == order[j];
  }

  /** After the round, the new queue front is at most one layer further out. */
  lemma FrontStep(adj: seq<seq<int>>, u: int, visited: seq<bool>, dist: seq<int>, order: seq<int>, head: int,
                  visited': seq<bool>, dist': seq<int>, order': seq<int>)
    requires ValidAdjacency(adj) && |dist| == |adj| && |dist'| == |adj|
    requires Marked(|adj|, visited, order) && Marked(|adj|, visited', order') && Layered(adj, u, dist', order')
    requires 0 <= head < |order| <= |order'| && order'[..|order|] == order
    requires dist[order[|order| - 1]] <= dist[order[head]] + 1 && dist[order[head]] >= 0
    requires forall y :: 0 <= y < |adj| && Reach(adj, u, y, dist[order[head]]) ==> visited[y]
    requires forall j :: 0 <= j < |order| ==> dist'[order[j]] == dist[order[j]]
    requires forall j :: |order| <= j < |order'| ==> dist'[order'[j]] == dist[order[head]] + 1
    requires forall y :: 0 <= y < |adj| && visited[y] ==> visited'[y]
    requires forall j, y :: 0 <= j < head + 1 && y in adj[order'[j]] ==> visited'[y]
    ensures head + 1 < |order'| ==> dist'[order'[|order'| - 1]] <= dist'[order'[head + 1]] + 1
    ensures head + 1 < |order'| ==>
      forall y :: 0 <= y < |adj| && Reach(adj, u, y, dist'[order'[head + 1]]) ==> visited'[y]
  {
    var x := order[head];
    assert forall j :: 0 <= j < |order| ==> order'[j] == order[j];
    if head + 1 < |order'| {
      var e := dist'[order'[head + 1]];
      var last := order'[|order'| - 1];
      if |order'| > |order| {
        assert dist'[last] == dist[x] + 1;
      } else {
        assert last == order[|order| - 1];
      }
      assert dist'[order'[head]] <= e;
      if e == dist[x] + 1 {
        NextLayerVisited(adj, u, visited', dist', order', head + 1, e);
      }
    }
  }

  /** One round of the `while` loop keeps its invariant. */
  lemma SearchStep(adj: seq<seq<int>>, u: int, visited: seq<bool>, dist: seq<int>, order: seq<int>, head: int,
                   visited': seq<bool>, dist': seq<int>, order': seq<int>)
    requires Searching(adj, u, visited, dist, order, head) && head < |order|
    requires Grown(adj, u, order[head], visited, dist, order, visited', dist', order')
    requires forall y :: y in adj[order[head]] ==> visited'[y]
    ensures Searching(adj, u, visited', dist', order', head + 1)
  {
    assert order'[0] == order[0];
    ClosureStep(adj, visited, order, head, visited', order');
    FrontStep(adj, u, visited, dist, order, head, visited', dist', order');
  }

  /** With the queue empty, everything reachable from `u` has been visited. */
  lemma {:induction false} ClosedReach(adj: seq<seq<int>>, u: int, visited: seq<bool>, dist: seq<int>, order: seq<int>, y: int, k: nat)
    requires Searching(adj, u, visited, dist, order, |order|)
    requires 0 <= y < |adj| && Reach(adj, u, y, k)
    ensures visited[y]
    decreases k
  {
    if k == 0 {
      assert y == order[0];
    } else if Reach(adj, u, y, k - 1) {
      ClosedReach(adj, u, visited, dist, order, y, k - 1);
    } else {
      var z :| 0 <= z < |adj| && Reach(adj, u, z, k - 1) && y in adj[z];
      ClosedReach(adj, u, visited, dist, order, z, k - 1);
      var j := IndexOf(order, z);
    }
  }

  /** With the queue empty, the nodes that ever entered it are exactly those reachable from `u`. */
  lemma EnqueuedExactlyReachable(adj: seq<seq<int>>, u: int, visited: seq<bool>, dist: seq<int>, order: seq<int>)
    requires Searching(adj, u, visited, dist, order, |order|)
    ensures forall y :: 0 <= y < |adj| ==> (y in order <==> Reachable(adj, u, y))
  {
    forall y | 0 <= y < |adj|
      ensures y in order <==> Reachable(adj, u, y)
    {
      if Reachable(adj, u, y) {
        var k: nat :| Reach(adj, u, y, k);
        ClosedReach(adj, u, visited, dist, order, y, k);
      }
      if y in order {
        var j := IndexOf(order, y);
        assert Reach(adj, u, y, dist[y]);
      }
    }
  }

  /**
   * What the finished search leaves behind: the recorded distance of `v` is
   * its shortest distance when `v` is reachable and 0 otherwise, and the
   * queue order holds `u` first and each reachable node once.
   */
  lemma SearchResult(adj: seq<seq<int>>, u: int, v: int, visited: seq<bool>, dist: seq<int>, order: seq<int>)
    requires Searching(adj, u, visited, dist, order, |order|)
    requires 0 <= u < |adj| && 0 <= v < |adj|
    requires CountFalse(visited) + |order| == |adj|
    ensures Reachable(adj, u, v) ==> dist[v] >= 0 && IsDist(adj, u, v, dist[v])
    ensures !Reachable(adj, u, v) ==> dist[v] == 0
    ensures v == u ==> dist[v] == 0
    ensures v != u && v in adj[u] ==> dist[v] == 1
    ensures |order| <= |adj|
    ensures forall y :: 0 <= y < |adj| ==> (y in order <==> Reachable(adj, u, y))
  {
    EnqueuedExactlyReachable(adj, u, visited, dist, order);
    if visited[v] {
      var j := IndexOf(order, v);
      assert Reach(adj, u, v, dist[v]);
    }
    NearDistances(adj, u, v);
    if v == u || v in adj[u] {
      assert Reach(adj, u, v, 1);
      DistUnique(adj, u, v, dist[v], if v == u then 0 else 1);
    }
  }

  /** A node is at distance 0 from itself and any other neighbour of `u` at distance 1. */
  lemma NearDistances(adj: seq<seq<int>>, u: int, v: int)
    requires 0 <= u < |adj|
    ensures v == u ==> IsDist(adj, u, v, 0)
    ensures v != u && v in adj[u] ==> IsDist(adj, u, v, 1)
  {
    assert Reach(adj, u, u, 0);
  }

  /** The state before the `while` loop: only `u` is visited and queued, at distance 0. */
  lemma SearchStart(adj: seq<seq<int>>, u: int)
    requires ValidAdjacency(adj) && 0 <= u < |adj|
    ensures var visited := seq(|adj|, _ => false)[u := true];
      && Searching(adj, u, visited, seq(|adj|, _ => 0), [u], 0)
      && CountFalse(visited) + 1 == |adj|
  {
    var n := |adj|;
    CountFalseNone(n);
    CountFalseMark(seq(n, _ => false), u);
    var visited := seq(n, _ => false)[u := true];
    assert forall y :: 0 <= y < n && Reach(adj, u, y, 0) ==> visited[y];
    assert IsDist(adj, u, u, 0);
  }

  /**
   * `tree_dist`: the length of a shortest path from `u` to `v` when there is
   * one, and 0 otherwise. `enqueued` is the order in which nodes enter, and so
   * leave, the FIFO queue: it starts at `u`, holds no node twice, so at most
   * `n` nodes are enqueued and dequeued, and holds exactly the nodes reachable
   * from `u`.
   */
  method TreeDist(adj: seq<seq<int>>, u: int, v: int) returns (d: int, ghost enqueued: seq<int>)
    requires ValidAdjacency(adj) && 0 <= u < |adj| && 0 <= v < |adj|
    ensures Reachable(adj, u, v) ==> d >= 0 && IsDist(adj, u, v, d)
    ensures !Reachable(adj, u, v) ==> d == 0
    ensures v == u ==> d == 0
    ensures v != u && v in adj[u] ==> d == 1
    ensures |enqueued| <= |adj| && |enqueued| > 0 && enqueued[0] == u
    ensures forall i, j :: 0 <= i < j < |enqueued| ==> enqueued[i] != enqueued[j]
    ensures forall y :: 0 <= y < |adj| ==> (y in enqueued <==> Reachable(adj, u, y))
  {
    var n := |adj|;
    var visited: seq<bool> := seq(n, _ => false)[u := true];
    var dist: seq<int> := seq(n, _ => 0);
    var order := [u];
    var head := 0;
    SearchStart(adj, u);
    while head < |order|
      invariant Searching(adj, u, visited, dist, order, head)
      invariant CountFalse(visited) + |order| == n
      decreases CountFalse(visited), |order| - head
    {
      var x := order[head];
      var visited', dist', order' := Expand(adj, u, x, visited, dist, order);
      SearchStep(adj, u, visited, dist, order, head, visited', dist', order');
      visited, dist, order, head := visited', dist', order', head + 1;
    }
    d, enqueued := dist[v], order;
    SearchResult(adj, u, v, visited, dist, order);
  }
}
