/**
 * `read_tree` of `src/read_taxo.py` and the consistency assertion of its main
 * block: the taxonomy file holds one edge `parent child` per line, and every
 * edge is appended to `children_map[parent]` and to `parent_map[child]`.
 */
module TaxonomyGraph {
  import opened Wrappers
  import opened Text
  import opened Taxonomy
  import opened LineReader

  /** One line of the taxonomy file: exactly two fields, both integers. */
  function ParseEdge(line: string, k: nat): Result<Edge, Error>
  {
    var fields := Fields(line);
    if |fields| != 2 then Err(EdgeArity(k, |fields|))
    else
      match (ParseInt(fields[0]), ParseInt(fields[1]))
      case (Some(p), Some(c)) => Ok(Edge(p, c))
      case _ => Err(NotAnInteger(k))
  }

  /** The line a writer of the taxonomy file emits for `e`. */
  function EdgeLine(e: Edge): string
  {
    ShowInt(e.parent) + " " + ShowInt(e.child) + "\n"
  }

  /** The children of `p` in the edge list, in edge order. */
  function ChildrenOf(edges: seq<Edge>, p: int): seq<int>
  {
    if |edges| == 0 then []
    else (if edges[0].parent == p then [edges[0].child] else []) + ChildrenOf(edges[1..], p)
  }

  /** The parents of `c` in the edge list, in edge order. */
  function ParentsOf(edges: seq<Edge>, c: int): seq<int>
  {
    if |edges| == 0 then []
    else (if edges[0].child == c then [edges[0].parent] else []) + ParentsOf(edges[1..], c)
  }

  /** The ids that occur as a parent in the edge list. */
  function ParentIds(edges: seq<Edge>): set<int>
  {
    set e | e in edges :: e.parent
  }

  /** The ids that occur as a child in the edge list. */
  function ChildIds(edges: seq<Edge>): set<int>
  {
    set e | e in edges :: e.child
  }

  /** How many times the edge `p -> c` occurs in the edge list. */
  function EdgeCount(edges: seq<Edge>, p: int, c: int): nat
  {
    if |edges| == 0 then 0
    else (if edges[0] == Edge(p, c) then 1 else 0) + EdgeCount(edges[1..], p, c)
  }

  /** The loop body of `read_tree` applied to every edge, in file order. */
  function BuildMaps(edges: seq<Edge>): Graph
    decreases |edges|
  {
    if |edges| == 0 then Graph(map[], map[])
    else
      var g := BuildMaps(edges[..|edges| - 1]);
      var e := edges[|edges| - 1];
      Graph(g.parents[e.child := Get(g.parents, e.child) + [e.parent]],
            g.children[e.parent := Get(g.children, e.parent) + [e.child]])
  }

  /** `read_tree`: parse every edge line, then build both adjacency maps. */
  function ReadTree(lines: seq<string>): Result<Graph, Error>
  {
    var edges :- ParseAll(lines, ParseEdge);
    Ok(BuildMaps(edges))
  }

  /** The consistency assertion: the category ids are the child ids plus 0. */
  predicate Consistent(categories: map<int, seq<string>>, g: Graph)
  {
    categories.Keys == g.parents.Keys + {0}
  }

  lemma {:induction false} ChildrenOfAppend(edges: seq<Edge>, e: Edge, p: int)
    ensures ChildrenOf(edges + [e], p) == ChildrenOf(edges, p) + (if e.parent == p then [e.child] else [])
    decreases |edges|
  {
    if |edges| > 0 {
      assert (edges + [e])[1..] == edges[1..] + [e];
      ChildrenOfAppend(edges[1..], e, p);
    }
  }

  lemma {:induction false} ParentsOfAppend(edges: seq<Edge>, e: Edge, c: int)
    ensures ParentsOf(edges + [e], c) == ParentsOf(edges, c) + (if e.child == c then [e.parent] else [])
    decreases |edges|
  {
    if |edges| > 0 {
      assert (edges + [e])[1..] == edges[1..] + [e];
      ParentsOfAppend(edges[1..], e, c);
    }
  }

  /** `children_map` is keyed by the parent ids, `parent_map` by the child ids. */
  lemma {:induction false} BuildMapsKeys(edges: seq<Edge>)
    ensures BuildMaps(edges).children.Keys == ParentIds(edges)
    ensures BuildMaps(edges).parents.Keys == ChildIds(edges)
    decreases |edges|
  {
    if |edges| > 0 {
      var prefix := edges[..|edges| - 1];
      var e := edges[|edges| - 1];
      assert edges == prefix + [e];
      BuildMapsKeys(prefix);
      assert ParentIds(edges) == ParentIds(prefix) + {e.parent};
      assert ChildIds(edges) == ChildIds(prefix) + {e.child};
    }
  }

  /** `children_map[p]` lists the children of `p`, in edge order. */
  lemma {:induction false} BuildMapsChildren(edges: seq<Edge>, p: int)
    ensures Get(BuildMaps(edges).children, p) == ChildrenOf(edges, p)
    decreases |edges|
  {
    if |edges| > 0 {
      var prefix := edges[..|edges| - 1];
      var e := edges[|edges| - 1];
      assert edges == prefix + [e];
      BuildMapsChildren(prefix, p);
      ChildrenOfAppend(prefix, e, p);
    }
  }

  /** `parent_map[c]` lists the parents of `c`, in edge order. */
  lemma {:induction false} BuildMapsParents(edges: seq<Edge>, c: int)
    ensures Get(BuildMaps(edges).parents, c) == ParentsOf(edges, c)
    decreases |edges|
  {
    if |edges| > 0 {
      var prefix := edges[..|edges| - 1];
      var e := edges[|edges| - 1];
      assert edges == prefix + [e];
      BuildMapsParents(prefix, c);
      ParentsOfAppend(prefix, e, c);
    }
  }

  /** `c` is listed under `p` as often as `p -> c` occurs, and vice versa. */
  lemma {:induction false} EdgeCounts(edges: seq<Edge>, p: int, c: int)
    ensures multiset(ChildrenOf(edges, p))[c] == EdgeCount(edges, p, c)
    ensures multiset(ParentsOf(edges, c))[p] == EdgeCount(edges, p, c)
    decreases |edges|
  {
    if |edges| > 0 {
      EdgeCounts(edges[1..], p, c);
    }
  }

  /**
   * The two maps mirror each other: `c` occurs in `children_map[p]` exactly
   * as many times as `p` occurs in `parent_map[c]`.
   */
  lemma {:induction false} MapsMirror(edges: seq<Edge>, p: int, c: int)
    ensures var g := BuildMaps(edges);
      multiset(Get(g.children, p))[c] == multiset(Get(g.parents, c))[p]
    ensures var g := BuildMaps(edges);
      c in Get(g.children, p) <==> p in Get(g.parents, c)
  {
    BuildMapsChildren(edges, p);
    BuildMapsParents(edges, c);
    EdgeCounts(edges, p, c);
    var g := BuildMaps(edges);
    assert c in Get(g.children, p) <==> c in multiset(Get(g.children, p));
    assert p in Get(g.parents, c) <==> p in multiset(Get(g.parents, c));
  }

  /** `read_tree` succeeds exactly when every line is an edge of two integers. */
  lemma ReadTreeAccepts(lines: seq<string>)
    ensures ReadTree(lines).Ok? <==> AllParse(lines, ParseEdge, |lines|)
  {
    ParseAllAccepts(lines, ParseEdge);
  }

  /** A failed read reports the error of the first malformed line. */
  lemma ReadTreeFirstError(lines: seq<string>)
    requires ReadTree(lines).Err?
    ensures exists j ::
      && 0 <= j < |lines|
      && AllParse(lines, ParseEdge, j)
      && ParseEdge(lines[j], j) == Err(ReadTree(lines).error)
  {
    ParseAllFirstError(lines, ParseEdge);
  }

  /** A successful read holds the maps of the edges of its lines, in order. */
  lemma ReadTreeEdges(lines: seq<string>)
    requires ReadTree(lines).Ok?
    ensures var edges := ParseAll(lines, ParseEdge).value;
      && |edges| == |lines|
      && (forall k :: 0 <= k < |lines| ==> ParseEdge(lines[k], k) == Ok(edges[k]))
      && ReadTree(lines).value == BuildMaps(edges)
  {
    ParseAllValues(lines, ParseEdge);
  }

  /** Parsing the line written for an edge gives that edge back. */
  lemma ParseEdgeLine(e: Edge, k: nat)
    ensures ParseEdge(EdgeLine(e), k) == Ok(e)
  {
    ShowIntNoSpace(e.parent);
    ShowIntNoSpace(e.child);
    var tokens := [ShowInt(e.parent), ShowInt(e.child)];
    assert Join(tokens, " ") + "\n" == EdgeLine(e);
    FieldsOfTokens(tokens);
    ParseShow(e.parent);
    ParseShow(e.child);
  }

  /** `p` is listed as a parent of `c` exactly when the edge `p -> c` occurs. */
  lemma {:induction false} ParentsOfMembers(edges: seq<Edge>, c: int)
    ensures forall p :: p in ParentsOf(edges, c) <==> Edge(p, c) in edges
    decreases |edges|
  {
    if |edges| > 0 {
      ParentsOfMembers(edges[1..], c);
      assert forall e :: e in edges <==> e == edges[0] || e in edges[1..];
    }
  }

  /** `c` is listed as a child of `p` exactly when the edge `p -> c` occurs. */
  lemma {:induction false} ChildrenOfMembers(edges: seq<Edge>, p: int)
    ensures forall c :: c in ChildrenOf(edges, p) <==> Edge(p, c) in edges
    decreases |edges|
  {
    if |edges| > 0 {
      ChildrenOfMembers(edges[1..], p);
      assert forall e :: e in edges <==> e == edges[0] || e in edges[1..];
    }
  }

  /** A key of `parent_map` always holds a first parent; any other id holds none. */
  lemma {:induction false} KeysHaveParents(edges: seq<Edge>, c: int)
    ensures c in BuildMaps(edges).parents <==> |Get(BuildMaps(edges).parents, c)| > 0
  {
    BuildMapsKeys(edges);
    BuildMapsParents(edges, c);
    ParentsOfMembers(edges, c);
    if c in ChildIds(edges) {
      var e :| e in edges && e.child == c;
      assert e == Edge(e.parent, c);
    }
  }

  /** The consistency assertion holds exactly when the category ids are the child ids plus 0. */
  lemma ConsistentIff(categories: map<int, seq<string>>, edges: seq<Edge>)
    ensures Consistent(categories, BuildMaps(edges)) <==> categories.Keys == ChildIds(edges) + {0}
  {
    BuildMapsKeys(edges);
  }
}
