/**
 * The relation rows written by the main block of `src/read_taxo.py`: for node
 * `i`, a zero row of length `n` gets 1 at every parent of `i` and every child
 * of those parents, then 2 at every parent, then 0 at `i` itself.
 */
module RelationMatrix {
  import opened Wrappers
  import opened Taxonomy
  import opened Tables

  /** The children of every id of `ps`, concatenated in the order of `ps`. */
  function ChildrenOfAll(g: Graph, ps: seq<int>): seq<int>
  {
    if |ps| == 0 then [] else Get(g.children, ps[0]) + ChildrenOfAll(g, ps[1..])
  }

  /** `subtree`: the parents of `i`, then each parent's children in turn. */
  function Subtree(g: Graph, i: int): seq<int>
  {
    Get(g.parents, i) + ChildrenOfAll(g, Get(g.parents, i))
  }

  /** numpy accepts index `q` on an axis of length `n`. */
  predicate InAxis(q: int, n: int)
  {
    -n <= q < n
  }

  /** The position numpy writes for an accepted index: negatives count from the end. */
  function Wrap(q: int, n: int): int
    requires InAxis(q, n)
  {
    if q < 0 then q + n else q
  }

  /** The first index numpy rejects, if any. */
  function FirstRejected(idxs: seq<int>, n: int): (r: Option<int>)
    ensures r.None? <==> forall k :: 0 <= k < |idxs| ==> InAxis(idxs[k], n)
    ensures r.Some? ==> r.value in idxs && !InAxis(r.value, n)
  {
    if |idxs| == 0 then None
    else if !InAxis(idxs[0], n) then Some(idxs[0])
    else FirstRejected(idxs[1..], n)
  }

  /** The positions an index list selects on an axis of length `n`. */
  ghost function Positions(idxs: seq<int>, n: int): set<int>
  {
    set k | 0 <= k < |idxs| && InAxis(idxs[k], n) :: Wrap(idxs[k], n)
  }

  /** `row[idxs] = v`: numpy's fancy-index assignment. */
  function Assign(row: seq<int>, idxs: seq<int>, v: int): (r: seq<int>)
    requires forall k :: 0 <= k < |idxs| ==> InAxis(idxs[k], |row|)
    ensures |r| == |row|
    decreases |idxs|
  {
    if |idxs| == 0 then row
    else Assign(row[Wrap(idxs[0], |row|) := v], idxs[1..], v)
  }

  /** A row of `n` zeros, `np.zeros((n,), dtype=int)`. */
  function Zeros(n: nat): seq<int>
  {
    seq(n, _ => 0)
  }

  /** The relation row of node `i` among `n` nodes, or numpy's `IndexError`. */
  function RelationRow(g: Graph, n: nat, i: int): Result<seq<int>, Error>
  {
    var parents := Get(g.parents, i);
    var subtree := Subtree(g, i);
    match FirstRejected(subtree, n)
    case Some(q) => Err(IndexOutOfRange(i, q))
    case None =>
      assert forall k :: 0 <= k < |parents| ==> parents[k] == subtree[k];
      var row := Assign(Assign(Zeros(n), subtree, 1), parents, 2);
      if InAxis(i, n) then Ok(row[Wrap(i, n) := 0]) else Err(IndexOutOfRange(i, i))
  }

  /**
   * The value the row of `i` holds at `j`, by precedence: self is 0, a parent
   * is 2, any other member of `subtree` is 1, everything else is 0.
   */
  ghost function Relation(g: Graph, n: nat, i: int, j: int): int
  {
    if j == i then 0
    else if j in Positions(Get(g.parents, i), n) then 2
    else if j in Positions(Subtree(g, i), n) then 1
    else 0
  }

  /** `row[idxs] = v` sets exactly the selected positions to `v`. */
  lemma {:induction false} AssignSpec(row: seq<int>, idxs: seq<int>, v: int)
    requires forall k :: 0 <= k < |idxs| ==> InAxis(idxs[k], |row|)
    ensures forall j :: 0 <= j < |row| ==>
      Assign(row, idxs, v)[j] == if j in Positions(idxs, |row|) then v else row[j]
    decreases |idxs|
  {
    if |idxs| > 0 {
      var n := |row|;
      var row' := row[Wrap(idxs[0], n) := v];
      AssignSpec(row', idxs[1..], v);
      forall j | 0 <= j < n
        ensures j in Positions(idxs, n) <==> j == Wrap(idxs[0], n) || j in Positions(idxs[1..], n)
      {
        if j in Positions(idxs, n) {
          var k :| 0 <= k < |idxs| && InAxis(idxs[k], n) && Wrap(idxs[k], n) == j;
          if k > 0 {
            assert idxs[1..][k - 1] == idxs[k];
          }
        }
        if j in Positions(idxs[1..], n) {
          var k :| 0 <= k < |idxs| - 1 && InAxis(idxs[1..][k], n) && Wrap(idxs[1..][k], n) == j;
          assert idxs[1..][k] == idxs[k + 1];
        }
      }
    }
  }

  /**
   * The row exists exactly when numpy accepts every index of `subtree`, and
   * then it has length `n` and holds `Relation` at every position: the three
   * writes in source order give self precedence over parent over sibling.
   */
  lemma RelationRowSpec(g: Graph, n: nat, i: int)
    requires 0 <= i < n
    ensures RelationRow(g, n, i).Ok? <==> forall k :: 0 <= k < |Subtree(g, i)| ==> InAxis(Subtree(g, i)[k], n)
    ensures RelationRow(g, n, i).Ok? ==> |RelationRow(g, n, i).value| == n
    ensures RelationRow(g, n, i).Ok? ==> forall j :: 0 <= j < n ==>
      RelationRow(g, n, i).value[j] == Relation(g, n, i, j)
  {
    var parents := Get(g.parents, i);
    var subtree := Subtree(g, i);
    if FirstRejected(subtree, n).None? {
      assert forall k :: 0 <= k < |parents| ==> parents[k] == subtree[k];
      var ones := Assign(Zeros(n), subtree, 1);
      AssignSpec(Zeros(n), subtree, 1);
      AssignSpec(ones, parents, 2);
    }
  }

  /** An id is in the concatenation exactly when it is a child of a listed parent. */
  lemma {:induction false} ChildrenOfAllMembers(g: Graph, ps: seq<int>)
    ensures forall c :: c in ChildrenOfAll(g, ps) <==> exists p :: p in ps && c in Get(g.children, p)
    decreases |ps|
  {
    if |ps| > 0 {
      ChildrenOfAllMembers(g, ps[1..]);
      assert forall p :: p in ps <==> p == ps[0] || p in ps[1..];
    }
  }

  /** For indices inside `[0, n)` the selected positions are the indices themselves. */
  lemma PositionsOfNatural(idxs: seq<int>, n: int)
    requires forall k :: 0 <= k < |idxs| ==> 0 <= idxs[k] < n
    ensures forall j :: j in Positions(idxs, n) <==> j in idxs
  {
    forall j | j in idxs
      ensures j in Positions(idxs, n)
    {
      var k :| 0 <= k < |idxs| && idxs[k] == j;
      assert Wrap(idxs[k], n) == j;
    }
  }

  /**
   * With every id of `subtree` inside `[0, n)` the row has the promised
   * shape: 0 at `i`, 2 at every other parent of `i`, 1 at every other child
   * of those parents that is not itself a parent, and 0 everywhere else.
   */
  lemma RelationRowCases(g: Graph, n: nat, i: int)
    requires 0 <= i < n
    requires forall p :: p in Get(g.parents, i) ==> 0 <= p < n
    requires forall p, c :: p in Get(g.parents, i) && c in Get(g.children, p) ==> 0 <= c < n
    ensures RelationRow(g, n, i).Ok?
    ensures var row := RelationRow(g, n, i).value;
      && |row| == n
      && row[i] == 0
      && (forall j :: 0 <= j < n ==> row[j] in {0, 1, 2})
      && (forall p :: p in Get(g.parents, i) && p != i ==> row[p] == 2)
      && (forall p, c :: p in Get(g.parents, i) && c in Get(g.children, p) && c != i && c !in Get(g.parents, i) ==> row[c] == 1)
      && (forall j :: 0 <= j < n && j != i && j !in Subtree(g, i) ==> row[j] == 0)
  {
    var parents := Get(g.parents, i);
    var subtree := Subtree(g, i);
    ChildrenOfAllMembers(g, parents);
    assert forall k :: 0 <= k < |subtree| ==> subtree[k] in subtree;
    RelationRowSpec(g, n, i);
    var row := RelationRow(g, n, i).value;
    assert forall k :: 0 <= k < |parents| ==> parents[k] == subtree[k];
    PositionsOfNatural(subtree, n);
    PositionsOfNatural(parents, n);
  }

  /** The matrix file: one relation row per category id `0 .. n-1`. */
  function Matrix(g: Graph, n: nat): Result<seq<seq<int>>, Error>
  {
    Tabulate(n, RowOf(g, n))
  }

  /** `RelationRow` as a function of the node alone. */
  function RowOf(g: Graph, n: nat): nat -> Result<seq<int>, Error>
  {
    i => RelationRow(g, n, i)
  }

  /**
   * The matrix exists exactly when every row does; then it has `n` rows and
   * row `i` is the relation row of `i`.
   */
  lemma MatrixRows(g: Graph, n: nat)
    ensures Matrix(g, n).Ok? <==> forall i: nat :: i < n ==> RelationRow(g, n, i).Ok?
    ensures Matrix(g, n).Ok? ==>
      && |Matrix(g, n).value| == n
      && forall i: nat :: i < n ==> RelationRow(g, n, i) == Ok(Matrix(g, n).value[i])
  {
    assert forall i: nat :: RowOf(g, n)(i) == RelationRow(g, n, i);
    TabulateValues(n, RowOf(g, n));
  }

  /** A failed matrix reports the error of the first rejected row. */
  lemma MatrixFirstError(g: Graph, n: nat)
    requires Matrix(g, n).Err?
    ensures exists i: nat ::
      && i < n
      && (forall j: nat :: j < i ==> RelationRow(g, n, j).Ok?)
      && RelationRow(g, n, i) == Err(Matrix(g, n).error)
  {
    assert forall i: nat :: RowOf(g, n)(i) == RelationRow(g, n, i);
    TabulateFirstError(n, RowOf(g, n));
  }
}
