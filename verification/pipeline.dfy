/**
 * The main block of `src/read_taxo.py`: read the category file and the
 * taxonomy file, assert that they agree, then produce the relation matrix
 * and the level list, each headed by the number of categories.
 */
module Pipeline {
  import opened Wrappers
  import opened Taxonomy
  import opened CategoryTable
  import opened TaxonomyGraph
  import opened RelationMatrix
  import opened LevelWalk
  import opened LineReader

  /** What the run writes: the category count, the matrix rows and the levels. */
  datatype Output = Output(count: nat, matrix: seq<seq<int>>, levels: seq<nat>)

  /** One run, failing at the first step that raises, in source order. */
  function Run(categoryLines: seq<string>, edgeLines: seq<string>): Result<Output, Error>
  {
    var categories :- ReadCategory(categoryLines);
    var g :- ReadTree(edgeLines);
    if !Consistent(categories, g) then Err(Inconsistent)
    else
      var n := |categories|;
      var matrix :- Matrix(g, n);
      var levels :- Levels(g, n);
      Ok(Output(n, matrix, levels))
  }

  /** The category count is the number of lines of the category file. */
  lemma CategoryCount(categoryLines: seq<string>)
    requires ReadCategory(categoryLines).Ok?
    ensures |ReadCategory(categoryLines).value| == |categoryLines|
  {
    ReadCategoryContents(categoryLines);
    assert ReadCategory(categoryLines).value.Keys == IdsBelow(|categoryLines|);
  }

  /** The run fails at the first failing step, with that step's error. */
  lemma RunErrors(categoryLines: seq<string>, edgeLines: seq<string>)
    ensures ReadCategory(categoryLines).Err? ==> Run(categoryLines, edgeLines) == Err(ReadCategory(categoryLines).error)
    ensures ReadCategory(categoryLines).Ok? && ReadTree(edgeLines).Err? ==>
      Run(categoryLines, edgeLines) == Err(ReadTree(edgeLines).error)
    ensures ReadCategory(categoryLines).Ok? && ReadTree(edgeLines).Ok? ==>
      var categories := ReadCategory(categoryLines).value;
      var g := ReadTree(edgeLines).value;
      var n := |categories|;
      && (!Consistent(categories, g) ==> Run(categoryLines, edgeLines) == Err(Inconsistent))
      && (Consistent(categories, g) && Matrix(g, n).Err? ==> Run(categoryLines, edgeLines) == Err(Matrix(g, n).error))
      && (Consistent(categories, g) && Matrix(g, n).Ok? && Levels(g, n).Err? ==>
            Run(categoryLines, edgeLines) == Err(Levels(g, n).error))
  {
  }

  /** A run whose category file is malformed fails with the error of its first bad line. */
  lemma RunCategoryError(categoryLines: seq<string>, edgeLines: seq<string>)
    requires ReadCategory(categoryLines).Err?
    ensures Run(categoryLines, edgeLines).Err?
    ensures exists j ::
      && 0 <= j < |categoryLines|
      && AllParse(categoryLines, ParseCategoryLine, j)
      && ParseCategoryLine(categoryLines[j], j) == Err(Run(categoryLines, edgeLines).error)
  {
    RunErrors(categoryLines, edgeLines);
    ReadCategoryFirstError(categoryLines);
  }

  /**
   * A run with a well-formed category file and a malformed taxonomy file fails
   * with the error of the first bad edge line.
   */
  lemma RunTreeError(categoryLines: seq<string>, edgeLines: seq<string>)
    requires ReadCategory(categoryLines).Ok? && ReadTree(edgeLines).Err?
    ensures Run(categoryLines, edgeLines).Err?
    ensures exists j ::
      && 0 <= j < |edgeLines|
      && AllParse(edgeLines, ParseEdge, j)
      && ParseEdge(edgeLines[j], j) == Err(Run(categoryLines, edgeLines).error)
  {
    RunErrors(categoryLines, edgeLines);
    ReadTreeFirstError(edgeLines);
  }

  /**
   * A run that passes the assertion but cannot build the matrix fails with
   * numpy's error for the first node whose relation row fails.
   */
  lemma RunMatrixError(categoryLines: seq<string>, edgeLines: seq<string>)
    requires ReadCategory(categoryLines).Ok? && ReadTree(edgeLines).Ok?
    requires Consistent(ReadCategory(categoryLines).value, ReadTree(edgeLines).value)
    requires Matrix(ReadTree(edgeLines).value, |categoryLines|).Err?
    ensures Run(categoryLines, edgeLines).Err?
    ensures var g := ReadTree(edgeLines).value;
      exists i: nat ::
        && i < |categoryLines|
        && (forall j: nat :: j < i ==> RelationRow(g, |categoryLines|, j).Ok?)
        && RelationRow(g, |categoryLines|, i) == Err(Run(categoryLines, edgeLines).error)
  {
    CategoryCount(categoryLines);
    RunErrors(categoryLines, edgeLines);
    MatrixFirstError(ReadTree(edgeLines).value, |categoryLines|);
  }

  /**
   * A run that builds the matrix but not every level fails with the error of
   * the first node whose level fails.
   */
  lemma RunLevelsError(categoryLines: seq<string>, edgeLines: seq<string>)
    requires ReadCategory(categoryLines).Ok? && ReadTree(edgeLines).Ok?
    requires Consistent(ReadCategory(categoryLines).value, ReadTree(edgeLines).value)
    requires Matrix(ReadTree(edgeLines).value, |categoryLines|).Ok?
    requires Levels(ReadTree(edgeLines).value, |categoryLines|).Err?
    ensures Run(categoryLines, edgeLines).Err?
    ensures var g := ReadTree(edgeLines).value;
      exists i: nat ::
        && i < |categoryLines|
        && (forall j: nat :: j < i ==> Level(g, j).Ok?)
        && Level(g, i) == Err(Run(categoryLines, edgeLines).error)
  {
    CategoryCount(categoryLines);
    RunErrors(categoryLines, edgeLines);
    LevelsFirstError(ReadTree(edgeLines).value, |categoryLines|);
  }

  /** Each step raises its own kind of error. */
  lemma ErrorKinds(categoryLines: seq<string>, edgeLines: seq<string>, g: Graph, n: nat)
    ensures ReadCategory(categoryLines).Err? ==> ReadCategory(categoryLines).error.NotAnInteger? || ReadCategory(categoryLines).error.IdMismatch?
    ensures ReadTree(edgeLines).Err? ==> ReadTree(edgeLines).error.NotAnInteger? || ReadTree(edgeLines).error.EdgeArity?
    ensures Matrix(g, n).Err? ==> Matrix(g, n).error.IndexOutOfRange?
    ensures Levels(g, n).Err? ==> Levels(g, n).error.MissingParent? || Levels(g, n).error.ParentCycle?
  {
    CategoryErrorKinds(categoryLines);
    TreeErrorKinds(edgeLines);
    MatrixErrorKinds(g, n);
    LevelsErrorKinds(g, n);
  }

  lemma CategoryErrorKinds(categoryLines: seq<string>)
    ensures ReadCategory(categoryLines).Err? ==> ReadCategory(categoryLines).error.NotAnInteger? || ReadCategory(categoryLines).error.IdMismatch?
  {
    if ReadCategory(categoryLines).Err? {
      ReadCategoryFirstError(categoryLines);
    }
  }

  lemma TreeErrorKinds(edgeLines: seq<string>)
    ensures ReadTree(edgeLines).Err? ==> ReadTree(edgeLines).error.NotAnInteger? || ReadTree(edgeLines).error.EdgeArity?
  {
    if ReadTree(edgeLines).Err? {
      ReadTreeFirstError(edgeLines);
    }
  }

  lemma MatrixErrorKinds(g: Graph, n: nat)
    ensures Matrix(g, n).Err? ==> Matrix(g, n).error.IndexOutOfRange?
  {
    if Matrix(g, n).Err? {
      MatrixFirstError(g, n);
    }
  }

  lemma LevelsErrorKinds(g: Graph, n: nat)
    ensures Levels(g, n).Err? ==> Levels(g, n).error.MissingParent? || Levels(g, n).error.ParentCycle?
  {
    if Levels(g, n).Err? {
      LevelsFirstError(g, n);
      var i: nat :| i < n && Level(g, i) == Err(Levels(g, n).error);
      LevelSound(g, i);
    }
  }

  /** `Inconsistent` is raised by the consistency assertion and by nothing else. */
  lemma RunInconsistent(categoryLines: seq<string>, edgeLines: seq<string>)
    ensures Run(categoryLines, edgeLines) == Err(Inconsistent) <==>
      && ReadCategory(categoryLines).Ok?
      && ReadTree(edgeLines).Ok?
      && !Consistent(ReadCategory(categoryLines).value, ReadTree(edgeLines).value)
  {
    RunErrors(categoryLines, edgeLines);
    if ReadCategory(categoryLines).Ok? && ReadTree(edgeLines).Ok? {
      var g := ReadTree(edgeLines).value;
      ErrorKinds(categoryLines, edgeLines, g, |ReadCategory(categoryLines).value|);
    } else {
      ErrorKinds(categoryLines, edgeLines, Graph(map[], map[]), 0);
    }
  }

  /** A run that gets through passed every step, and writes the matrix and the levels. */
  lemma RunSteps(categoryLines: seq<string>, edgeLines: seq<string>)
    requires Run(categoryLines, edgeLines).Ok?
    ensures ReadCategory(categoryLines).Ok? && ReadTree(edgeLines).Ok?
    ensures Consistent(ReadCategory(categoryLines).value, ReadTree(edgeLines).value)
    ensures var g := ReadTree(edgeLines).value;
      var n := |ReadCategory(categoryLines).value|;
      var out := Run(categoryLines, edgeLines).value;
      && Matrix(g, n) == Ok(out.matrix)
      && Levels(g, n) == Ok(out.levels)
      && out.count == n
  {
  }

  /**
   * A run that gets through writes `n` rows of `n` entries holding the
   * relation of every pair of nodes, and `n` levels, each the number of
   * first-parent steps that take its node to the root.
   */
  lemma RunOutput(categoryLines: seq<string>, edgeLines: seq<string>)
    requires Run(categoryLines, edgeLines).Ok?
    ensures var out := Run(categoryLines, edgeLines).value;
      var g := ReadTree(edgeLines).value;
      var n := |categoryLines|;
      && out.count == n
      && |out.matrix| == n
      && (forall i :: 0 <= i < n ==> |out.matrix[i]| == n)
      && (forall i, j :: 0 <= i < n && 0 <= j < n ==> out.matrix[i][j] == Relation(g, n, i, j))
      && |out.levels| == n
      && (forall i :: 0 <= i < n ==> StopsAt(g, i, out.levels[i]) && Walk(g, i, out.levels[i]) == Some(0))
  {
    RunSteps(categoryLines, edgeLines);
    var out := Run(categoryLines, edgeLines).value;
    var g := ReadTree(edgeLines).value;
    CategoryCount(categoryLines);
    var n := |categoryLines|;
    MatrixRows(g, n);
    LevelsValues(g, n);
    forall i | 0 <= i < n
      ensures |out.matrix[i]| == n
      ensures forall j :: 0 <= j < n ==> out.matrix[i][j] == Relation(g, n, i, j)
      ensures StopsAt(g, i, out.levels[i]) && Walk(g, i, out.levels[i]) == Some(0)
    {
      RelationRowSpec(g, n, i);
      LevelSound(g, i);
    }
  }

  /** The consistency assertion needs the root among the categories. */
  lemma RootIsCategory(categories: map<int, seq<string>>, edges: seq<Edge>, n: nat)
    requires categories.Keys == IdsBelow(n)
    requires Consistent(categories, BuildMaps(edges))
    ensures n >= 1
  {
    assert 0 in categories.Keys;
  }

  /** Under the consistency assertion every category other than the root has a first parent. */
  lemma NodeHasParent(categories: map<int, seq<string>>, edges: seq<Edge>, n: nat, i: int)
    requires categories.Keys == IdsBelow(n)
    requires Consistent(categories, BuildMaps(edges))
    requires 0 < i < n
    ensures FirstParent(BuildMaps(edges), i).Some?
  {
    assert i in categories.Keys;
    KeysHaveParents(edges, i);
  }

  /** Under the consistency assertion every child id is a category id. */
  lemma ChildIsCategory(categories: map<int, seq<string>>, edges: seq<Edge>, n: nat, e: Edge)
    requires categories.Keys == IdsBelow(n)
    requires Consistent(categories, BuildMaps(edges))
    requires e in edges
    ensures 0 <= e.child < n
  {
    BuildMapsKeys(edges);
    assert e.child in ChildIds(edges);
  }

  /**
   * The assertion checks child ids only. When every parent id is a category
   * id too, every relation row is built: no index numpy could reject occurs.
   */
  lemma MatrixWhenParentsKnown(categories: map<int, seq<string>>, edges: seq<Edge>, n: nat)
    requires categories.Keys == IdsBelow(n)
    requires Consistent(categories, BuildMaps(edges))
    requires ParentIds(edges) <= categories.Keys
    ensures Matrix(BuildMaps(edges), n).Ok?
  {
    var g := BuildMaps(edges);
    forall i: nat | i < n
      ensures RelationRow(g, n, i).Ok?
    {
      forall p | p in Get(g.parents, i)
        ensures 0 <= p < n
      {
        ParentIsCategory(categories, edges, i, p);
      }
      forall p, c | p in Get(g.parents, i) && c in Get(g.children, p)
        ensures 0 <= c < n
      {
        BuildMapsChildren(edges, p);
        ChildrenOfMembers(edges, p);
        ChildIsCategory(categories, edges, n, Edge(p, c));
      }
      RelationRowCases(g, n, i);
    }
    MatrixRows(g, n);
  }

  /** A parent of a category is a category when every parent id is one. */
  lemma ParentIsCategory(categories: map<int, seq<string>>, edges: seq<Edge>, i: int, p: int)
    requires ParentIds(edges) <= categories.Keys
    requires p in Get(BuildMaps(edges).parents, i)
    ensures p in categories.Keys
  {
    BuildMapsParents(edges, i);
    ParentsOfMembers(edges, i);
    assert Edge(p, i) in edges;
  }

  /** With every parent id known, the first-parent walk only visits category ids. */
  lemma {:induction false} WalkInside(categories: map<int, seq<string>>, edges: seq<Edge>, n: nat, i: int, k: nat)
    requires categories.Keys == IdsBelow(n)
    requires ParentIds(edges) <= categories.Keys
    requires 0 <= i < n
    ensures Walk(BuildMaps(edges), i, k).Some? ==> 0 <= Walk(BuildMaps(edges), i, k).value < n
    decreases k
  {
    var g := BuildMaps(edges);
    if k > 0 && FirstParent(g, i).Some? {
      var p := FirstParent(g, i).value;
      ParentIsCategory(categories, edges, i, p);
      WalkInside(categories, edges, n, p, k - 1);
    }
  }

  /**
   * With every parent id known, no level fails on a missing parent: each
   * node either gets a level or lies on a walk that never reaches the root.
   */
  lemma LevelWhenParentsKnown(categories: map<int, seq<string>>, edges: seq<Edge>, n: nat, i: int)
    requires categories.Keys == IdsBelow(n)
    requires Consistent(categories, BuildMaps(edges))
    requires ParentIds(edges) <= categories.Keys
    requires 0 <= i < n
    ensures Level(BuildMaps(edges), i).Ok? || Level(BuildMaps(edges), i) == Err(ParentCycle(i))
  {
    var g := BuildMaps(edges);
    forall k: nat | StopsAt(g, i, k)
      ensures Walk(g, i, k) == Some(0)
    {
      StopsAtRoot(categories, edges, n, i, k);
    }
    LevelSound(g, i);
  }

  /** With every parent id known, a first-parent walk that stops does so at the root. */
  lemma StopsAtRoot(categories: map<int, seq<string>>, edges: seq<Edge>, n: nat, i: int, k: nat)
    requires categories.Keys == IdsBelow(n)
    requires Consistent(categories, BuildMaps(edges))
    requires ParentIds(edges) <= categories.Keys
    requires 0 <= i < n && StopsAt(BuildMaps(edges), i, k)
    ensures Walk(BuildMaps(edges), i, k) == Some(0)
  {
    var g := BuildMaps(edges);
    WalkInside(categories, edges, n, i, k);
    var y := Walk(g, i, k).value;
    if 0 < y < n {
      NodeHasParent(categories, edges, n, y);
    }
  }

  /**
   * A parent id outside the categories passes the assertion, and numpy then
   * rejects it while building the row of its child.
   */
  lemma UncheckedParent()
    ensures var g := BuildMaps([Edge(5, 1)]);
      && Consistent(map[0 := [], 1 := []], g)
      && Matrix(g, 2) == Err(IndexOutOfRange(1, 5))
  {
    var edges := [Edge(5, 1)];
    var g := BuildMaps(edges);
    assert edges[..0] == [];
    var empty := BuildMaps(edges[..0]);
    assert empty == Graph(map[], map[]);
    assert Get(empty.parents, 1) == [] && Get(empty.children, 5) == [];
    assert edges[|edges| - 1] == Edge(5, 1);
    assert g == Graph(empty.parents[1 := Get(empty.parents, 1) + [5]], empty.children[5 := Get(empty.children, 5) + [1]]);
    assert [] + [5] == [5] && [] + [1] == [1];
    assert g == Graph(map[1 := [5]], map[5 := [1]]);
    assert RelationRow(g, 2, 0).Ok?;
    assert RelationRow(g, 2, 1) == Err(IndexOutOfRange(1, 5));
    MatrixRows(g, 2);
    MatrixFirstError(g, 2);
  }

  /**
   * The assertion checks child ids only. An edge `p -> c` whose parent lies
   * outside numpy's range `[-n, n)` leaves the assertion untouched, and the
   * row of its child then fails, so no matrix is written.
   */
  lemma UnknownParentRejected(categories: map<int, seq<string>>, edges: seq<Edge>, n: nat, p: int, c: int)
    requires categories.Keys == IdsBelow(n)
    requires Consistent(categories, BuildMaps(edges))
    requires Edge(p, c) in edges && !InAxis(p, n)
    ensures 0 <= c < n
    ensures RelationRow(BuildMaps(edges), n, c).Err?
    ensures Matrix(BuildMaps(edges), n).Err?
  {
    var g := BuildMaps(edges);
    ChildIsCategory(categories, edges, n, Edge(p, c));
    BuildMapsParents(edges, c);
    ParentsOfMembers(edges, c);
    var subtree := Subtree(g, c);
    var k :| 0 <= k < |Get(g.parents, c)| && Get(g.parents, c)[k] == p;
    assert subtree[k] == p;
    assert FirstRejected(subtree, n).Some?;
    MatrixRows(g, n);
    var c': nat := c;
    assert RelationRow(g, n, c').Err?;
  }

  /**
   * A negative unknown parent inside `[-n, -1]` is not caught by numpy
   * either: it wraps around. With categories 0 and 1 and the edge `-1 -> 1`
   * the assertion passes and the matrix is written, and the run fails only
   * in the level loop, where `-1` has no parent.
   */
  lemma WrappedParent()
    ensures var g := BuildMaps([Edge(-1, 1)]);
      && Consistent(map[0 := [], 1 := []], g)
      && Matrix(g, 2).Ok?
      && Levels(g, 2) == Err(MissingParent(-1))
  {
    var edges := [Edge(-1, 1)];
    var g := BuildMaps(edges);
    assert edges[..0] == [];
    var empty := BuildMaps(edges[..0]);
    assert empty == Graph(map[], map[]);
    assert Get(empty.parents, 1) == [] && Get(empty.children, -1) == [];
    assert edges[|edges| - 1] == Edge(-1, 1);
    assert g == Graph(empty.parents[1 := Get(empty.parents, 1) + [-1]], empty.children[-1 := Get(empty.children, -1) + [1]]);
    assert [] + [-1] == [-1] && [] + [1] == [1];
    assert g == Graph(map[1 := [-1]], map[-1 := [1]]);
    assert Subtree(g, 1) == [-1, 1];
    assert RelationRow(g, 2, 0).Ok?;
    assert RelationRow(g, 2, 1).Ok?;
    MatrixRows(g, 2);
    assert Level(g, 0) == Ok(0);
    assert LevelFrom(g, 1, -1, 0) == Err(MissingParent(-1));
    assert Level(g, 1) == Err(MissingParent(-1));
    LevelsValues(g, 2);
    LevelsFirstError(g, 2);
  }
}
