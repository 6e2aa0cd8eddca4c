/**
 * The level file written by the main block of `src/read_taxo.py`: the level
 * of node `i` is the number of first-parent steps from `i` up to the root 0.
 * The source loops for ever when the walk cycles; the model detects that
 * case with a step budget that no terminating walk can exhaust.
 */
module LevelWalk {
  import opened Wrappers
  import opened Taxonomy
  import opened Tables

  /** `parent_map[x][0]`, or nothing when `x` has no recorded parent. */
  function FirstParent(g: Graph, x: int): Option<int>
  {
    var ps := Get(g.parents, x);
    if |ps| == 0 then None else Some(ps[0])
  }

  /** The node `k` first-parent steps above `x`, if every step finds a parent. */
  function Walk(g: Graph, x: int, k: nat): Option<int>
    decreases k
  {
    if k == 0 then Some(x)
    else
      match FirstParent(g, x)
      case None => None
      case Some(p) => Walk(g, p, k - 1)
  }

  /** The loop ends at `y`: either it is the root, or the next step raises. */
  predicate IsStop(g: Graph, y: int)
  {
    y == 0 || FirstParent(g, y).None?
  }

  /** The first `k` nodes of the walk from `x` all take another step. */
  ghost predicate Running(g: Graph, x: int, k: nat)
  {
    forall j: nat :: j < k ==> Walk(g, x, j).Some? && !IsStop(g, Walk(g, x, j).value)
  }

  /** The loop started at `x` ends after exactly `k` steps. */
  ghost predicate StopsAt(g: Graph, x: int, k: nat)
  {
    Running(g, x, k) && Walk(g, x, k).Some? && IsStop(g, Walk(g, x, k).value)
  }

  /**
   * The `while visit != 0` loop from `x` with at most `fuel` more steps;
   * running out of steps reports a cycle on behalf of the walk's `origin`.
   */
  function LevelFrom(g: Graph, origin: int, x: int, fuel: nat): Result<nat, Error>
    decreases fuel
  {
    if x == 0 then Ok(0)
    else
      match FirstParent(g, x)
      case None => Err(MissingParent(x))
      case Some(p) =>
        if fuel == 0 then Err(ParentCycle(origin))
        else
          var l :- LevelFrom(g, origin, p, fuel - 1);
          Ok(l + 1)
  }

  /** The level of `x`: the walk gets one step per key of `parent_map`. */
  function Level(g: Graph, x: int): Result<nat, Error>
  {
    LevelFrom(g, x, x, |g.parents|)
  }

  /** The level file: the level of every node `0 .. n-1`; the first failing node aborts. */
  function Levels(g: Graph, n: nat): Result<seq<nat>, Error>
  {
    Tabulate(n, LevelOf(g))
  }

  /** `Level` as a function of the node alone. */
  function LevelOf(g: Graph): nat -> Result<nat, Error>
  {
    i => Level(g, i)
  }

  /** One more step from the node reached after `k` steps. */
  lemma {:induction false} WalkStep(g: Graph, x: int, k: nat)
    requires Walk(g, x, k).Some?
    ensures Walk(g, x, k + 1) == FirstParent(g, Walk(g, x, k).value)
    decreases k
  {
    if k > 0 {
      WalkStep(g, FirstParent(g, x).value, k - 1);
    }
  }

  /** Walking `a + b` steps is walking `a` steps, then `b` from there. */
  lemma {:induction false} WalkCompose(g: Graph, x: int, a: nat, b: nat)
    requires Walk(g, x, a).Some?
    ensures Walk(g, x, a + b) == Walk(g, Walk(g, x, a).value, b)
    decreases a
  {
    if a > 0 {
      WalkCompose(g, FirstParent(g, x).value, a - 1, b);
    }
  }

  /** A running node hands the rest of the walk to its first parent. */
  lemma RunningShift(g: Graph, x: int, k: nat)
    requires !IsStop(g, x)
    ensures Running(g, x, k + 1) <==> Running(g, FirstParent(g, x).value, k)
    ensures StopsAt(g, x, k + 1) <==> StopsAt(g, FirstParent(g, x).value, k)
  {
    var p := FirstParent(g, x).value;
    assert forall j: nat :: Walk(g, x, j + 1) == Walk(g, p, j);
    if Running(g, p, k) {
      forall j: nat | j < k + 1
        ensures Walk(g, x, j).Some? && !IsStop(g, Walk(g, x, j).value)
      {
        if j > 0 {
          assert Walk(g, x, j) == Walk(g, p, j - 1);
        }
      }
    }
  }

  /** Before the walk stops it never revisits a node. */
  lemma WalkDistinct(g: Graph, x: int, k: nat, i: nat, j: nat)
    requires StopsAt(g, x, k)
    requires i < j < k
    ensures Walk(g, x, i) != Walk(g, x, j)
  {
    var m := k - j;
    WalkCompose(g, x, i, m);
    WalkCompose(g, x, j, m);
    assert !IsStop(g, Walk(g, x, i + m).value);
  }

  /** The nodes of the first `k` steps of the walk. */
  ghost function Visited(g: Graph, x: int, k: nat): set<int>
  {
    set j: nat | j < k && Walk(g, x, j).Some? :: Walk(g, x, j).value
  }

  /** The walk up to a stop visits `k` different keys of `parent_map`. */
  lemma {:induction false} VisitedCount(g: Graph, x: int, k: nat, m: nat)
    requires StopsAt(g, x, k) && m <= k
    ensures |Visited(g, x, m)| == m
    ensures Visited(g, x, m) <= g.parents.Keys
    decreases m
  {
    if m > 0 {
      VisitedCount(g, x, k, m - 1);
      var y := Walk(g, x, m - 1).value;
      assert Visited(g, x, m) == Visited(g, x, m - 1) + {y};
      if y in Visited(g, x, m - 1) {
        var j: nat :| j < m - 1 && Walk(g, x, j).Some? && Walk(g, x, j).value == y;
        WalkDistinct(g, x, k, j, m - 1);
      }
    }
  }

  /** A walk that stops does so within as many steps as `parent_map` has keys. */
  lemma StopsWithinKeys(g: Graph, x: int, k: nat)
    requires StopsAt(g, x, k)
    ensures k <= |g.parents|
  {
    VisitedCount(g, x, k, k);
    SubsetCard(Visited(g, x, k), g.parents.Keys);
  }

  lemma SubsetCard(a: set<int>, b: set<int>)
    requires a <= b
    ensures |a| <= |b|
  {
    assert b == (b - a) + a;
  }

  /** With enough steps left the loop ends where the walk stops. */
  lemma {:induction false} LevelFromStops(g: Graph, origin: int, x: int, fuel: nat, k: nat)
    requires StopsAt(g, x, k) && k <= fuel
    ensures var y := Walk(g, x, k).value;
      LevelFrom(g, origin, x, fuel) == if y == 0 then Ok(k) else Err(MissingParent(y))
    decreases k
  {
    if k > 0 {
      assert Walk(g, x, 0) == Some(x);
      RunningShift(g, x, k - 1);
      LevelFromStops(g, origin, FirstParent(g, x).value, fuel - 1, k - 1);
    }
  }

  /** A walk that outruns the budget is reported as a cycle. */
  lemma {:induction false} LevelFromRuns(g: Graph, origin: int, x: int, fuel: nat)
    requires Running(g, x, fuel + 1)
    ensures LevelFrom(g, origin, x, fuel) == Err(ParentCycle(origin))
    decreases fuel
  {
    assert Walk(g, x, 0) == Some(x);
    if fuel > 0 {
      RunningShift(g, x, fuel);
      LevelFromRuns(g, origin, FirstParent(g, x).value, fuel - 1);
    }
  }

  /** A walk that never stops keeps running for any number of steps. */
  lemma {:induction false} RunsForever(g: Graph, x: int, m: nat)
    requires forall k: nat :: !StopsAt(g, x, k)
    ensures Running(g, x, m)
    decreases m
  {
    if m > 0 {
      RunsForever(g, x, m - 1);
      assert !StopsAt(g, x, m - 1);
      if m - 1 > 0 {
        WalkStep(g, x, m - 2);
      }
    }
  }

  /** When the loop ends after `k` steps, the level is `k` or the missing parent. */
  lemma LevelStops(g: Graph, x: int, k: nat)
    requires StopsAt(g, x, k)
    ensures var y := Walk(g, x, k).value;
      Level(g, x) == if y == 0 then Ok(k) else Err(MissingParent(y))
  {
    StopsWithinKeys(g, x, k);
    LevelFromStops(g, x, x, |g.parents|, k);
  }

  /** A cycle is reported exactly when the source's loop never ends. */
  lemma LevelCycle(g: Graph, x: int)
    ensures Level(g, x) == Err(ParentCycle(x)) <==> forall k: nat :: !StopsAt(g, x, k)
  {
    if forall k: nat :: !StopsAt(g, x, k) {
      RunsForever(g, x, |g.parents| + 1);
      LevelFromRuns(g, x, x, |g.parents|);
    } else {
      var k: nat :| StopsAt(g, x, k);
      LevelStops(g, x, k);
    }
  }

  /**
   * Every outcome matches the source's loop: a level is the number of steps
   * that reach 0, and a missing parent is the non-root node where it stops.
   */
  lemma LevelSound(g: Graph, x: int)
    ensures Level(g, x).Ok? ==> StopsAt(g, x, Level(g, x).value) && Walk(g, x, Level(g, x).value) == Some(0)
    ensures Level(g, x).Err? && Level(g, x).error != ParentCycle(x) ==>
      exists k: nat :: StopsAt(g, x, k) && Level(g, x).error == MissingParent(Walk(g, x, k).value) && Walk(g, x, k) != Some(0)
  {
    LevelCycle(g, x);
    if Level(g, x) != Err(ParentCycle(x)) {
      var k: nat :| StopsAt(g, x, k);
      LevelStops(g, x, k);
    }
  }

  /** The root has level 0 and any other node is one below its first parent. */
  lemma LevelRecurrence(g: Graph, x: int)
    ensures Level(g, 0) == Ok(0)
    ensures x != 0 && Level(g, x).Ok? ==>
      && FirstParent(g, x).Some?
      && Level(g, FirstParent(g, x).value) == Ok(Level(g, x).value - 1)
  {
    if x != 0 && Level(g, x).Ok? {
      LevelSound(g, x);
      var l := Level(g, x).value;
      assert Walk(g, x, 0) == Some(x);
      RunningShift(g, x, l - 1);
      LevelStops(g, FirstParent(g, x).value, l - 1);
    }
  }

  /** Entry `i` of the level file is the level of `i`. */
  lemma LevelsValues(g: Graph, n: nat)
    ensures Levels(g, n).Ok? <==> forall i: nat :: i < n ==> Level(g, i).Ok?
    ensures Levels(g, n).Ok? ==>
      && |Levels(g, n).value| == n
      && forall i: nat :: i < n ==> Level(g, i) == Ok(Levels(g, n).value[i])
  {
    assert forall i: nat :: LevelOf(g)(i) == Level(g, i);
    TabulateValues(n, LevelOf(g));
  }

  /** A failed level file reports the error of the first failing node. */
  lemma LevelsFirstError(g: Graph, n: nat)
    requires Levels(g, n).Err?
    ensures exists i: nat ::
      && i < n
      && (forall j: nat :: j < i ==> Level(g, j).Ok?)
      && Level(g, i) == Err(Levels(g, n).error)
  {
    assert forall i: nat :: LevelOf(g)(i) == Level(g, i);
    TabulateFirstError(n, LevelOf(g));
  }
}
