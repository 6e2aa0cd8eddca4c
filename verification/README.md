# Taxonomy builder and phrase collapsing, in Dafny

This project models two pieces of pure logic and proves properties about them.

**The taxonomy builder of `src/read_taxo.py`.**
- The category file has one line per category: `id name name ...`. Line `k` must declare id `k`.
- The taxonomy file has one edge `parent child` per line.
- The edges fill two adjacency maps, `parent_map` and `children_map`.
- A consistency assertion requires the category ids to be the child ids plus the root 0.
- The main block then writes two outputs:
  - one relation row per node: 2 at a parent, 1 at another child of a parent, 0 elsewhere and at the node itself;
  - one level per node: the number of first-parent steps up to the root.
- `tree_dist` is a breadth-first search that measures the distance between two nodes.

**The per-line rewrite of `phrase_process` in `preprocess/utils.py`.**
- The text of each `<phrase>...</phrase>` span gets its spaces replaced by `_`.
- The tags are dropped and the line is stripped.

Modules, one concept each:
- `Wrappers`: `Option` and `Result`.
- `Text`: Python's `str.find`, `split`, `join`, `strip`, and `int`/`str` for integers.
- `Taxonomy`: the error kinds, edges, the two maps, and `defaultdict` reads.
- `LineReader`: a read loop where the first bad line aborts the read.
- `CategoryTable`: `read_category` and `names2str`.
- `TaxonomyGraph`: `read_tree` and the consistency assertion.
- `Tables`: a `for i in range(n)` loop that aborts on the first error.
- `RelationMatrix`: the relation rows.
- `LevelWalk`: the level loop.
- `Pipeline`: the main block.
- `ShortestPath`: `tree_dist`.
- `PhraseCollapse`: the phrase rewrite.

The failures the source raises are modelled as `Error` values, with the first failure winning (the exceptions are listed under "Left out"):
- a failed `assert` or `int(...)` while reading the files;
- an index numpy rejects;
- a missing parent in the level loop.

## Model

| member | source | states |
|---|---|---|
| Text.Find | src/read_taxo.py:32 | the search `split` relies on: the result is the leftmost occurrence of the pattern, and it is absent exactly when the pattern does not occur |
| Text.SplitThenJoin | src/read_taxo.py:32 | joining the pieces of `split` with the separator gives back the original string |
| Text.SplitPiecesAreFree | src/read_taxo.py:32 | no piece returned by `split` contains the separator |
| Text.BeforeFind | src/read_taxo.py:32 | the text before the leftmost occurrence of the separator does not contain it |
| Text.SplitWithoutSeparator | src/read_taxo.py:32 | `split` returns the whole string as one piece exactly when the separator does not occur |
| Text.JoinThenSplit | src/read_taxo.py:55 | splitting a space-free name list after joining it with single spaces gives back the list |
| Text.Strip | src/read_taxo.py:32 | the result is a contiguous slice of the input; it neither starts nor ends with whitespace, and only whitespace was cut |
| Text.StripKeeps | src/read_taxo.py:32 | a string without whitespace at either end is its own strip |
| Text.StripKeepsOnlyOwn | src/read_taxo.py:32 | `strip` introduces no character that was not in its input |
| Text.ParseInt | src/read_taxo.py:33 | models `int(token)`: whitespace the way `int` trims it, an optional sign, ASCII digits with single underscores; `None` stands for `ValueError`. Its meaning is stated by ParseUnsigned, ParseShow and SeparatorRejected |
| Text.ParseShow | src/read_taxo.py:33 | `int(str(x)) == x` for every integer `x` |
| Text.ParseUnsigned | src/read_taxo.py:33 | `int` of a digit string (with single underscores allowed) is its decimal value |
| Text.SeparatorRejected | src/read_taxo.py:33 | `int` rejects a token ending in U+001C although `strip` would remove that character |
| Text.StripDropsSeparator | src/read_taxo.py:32 | `strip()` removes U+001C, which `int` does not trim |
| Text.ShowIntNoSpace | src/read_taxo.py:46-50 | for the writer of an edge line `str(p) + " " + str(c)`: a printed integer is non-empty and has no whitespace, so it stays a single field when the line is read back |
| Taxonomy.Fields | src/read_taxo.py:32 | models `line.strip().split(' ')`; its meaning is stated by FieldsOfTokens |
| Taxonomy.FieldsOfTokens | src/read_taxo.py:46 | `line.strip().split(' ')` of a line of space-separated tokens ending in a newline gives those tokens |
| LineReader.ParseAllAccepts | src/read_taxo.py:31-35 | a read of a file succeeds exactly when every line passes its check |
| LineReader.ParseAllValues | src/read_taxo.py:31-35 | a successful read holds one value per line, and each value is what its own line parses to |
| LineReader.ParseAllFirstError | src/read_taxo.py:31-33 | a failed read reports the error of the first failing line; all earlier lines pass |
| CategoryTable.ParseCategoryLine | src/read_taxo.py:32-34 | models one round of the read loop: the id must parse and equal the line index, and the names are the fields after it |
| CategoryTable.ReadCategory | src/read_taxo.py:30-36 | models `read_category`; its meaning is stated by ReadCategoryAccepts, ReadCategoryContents and ReadCategoryFirstError |
| CategoryTable.ReadCategoryAccepts | src/read_taxo.py:31-35 | `read_category` succeeds exactly when each line's first field is an integer equal to the line's index |
| CategoryTable.ReadCategoryContents | src/read_taxo.py:31-35 | on success the keys are exactly `0 .. #lines-1`, and key `k` maps to the remaining fields of line `k`, in order |
| CategoryTable.ReadCategoryFirstError | src/read_taxo.py:31-33 | a failed `read_category` reports the first line whose id is not an integer or is not its index |
| CategoryTable.AssignRowsIndexMap | src/read_taxo.py:31-35 | the assignments `id2category[i] = line`, done in order, build the dictionary whose keys are `range(len(rows))` and whose key `k` holds `rows[k]`: nothing is overwritten or left over |
| CategoryTable.NamesToStr | src/read_taxo.py:54-55 | `names2str` is bracketed |
| CategoryTable.NamesToStrInverse | src/read_taxo.py:54-55 | a non-empty list of space-free names is recovered from the inside of its brackets |
| CategoryTable.NameFieldsSpaceFree | src/read_taxo.py:32-34 | no name field of a category line contains a space |
| CategoryTable.CategoryNamesRoundTrip | src/read_taxo.py:31-55 | the names `read_category` stores are space-free, so `names2str` loses nothing for a non-empty name list |
| TaxonomyGraph.ParseEdge | src/read_taxo.py:46-49 | models one line of the taxonomy file: exactly two fields, both integers |
| TaxonomyGraph.BuildMaps | src/read_taxo.py:43-50 | models the appends to both `defaultdict`s, edge by edge; its meaning is stated by BuildMapsKeys, BuildMapsChildren and BuildMapsParents |
| TaxonomyGraph.ReadTree | src/read_taxo.py:43-51 | models `read_tree`; its meaning is stated by ReadTreeAccepts, ReadTreeEdges and ReadTreeFirstError |
| TaxonomyGraph.ReadTreeAccepts | src/read_taxo.py:45-50 | `read_tree` succeeds exactly when every line has exactly two fields and both are integers |
| TaxonomyGraph.ReadTreeFirstError | src/read_taxo.py:45-50 | a failed `read_tree` reports the first malformed line |
| TaxonomyGraph.ReadTreeEdges | src/read_taxo.py:45-51 | a successful `read_tree` returns the maps built from the edges of its lines, in file order |
| TaxonomyGraph.ParseEdgeLine | src/read_taxo.py:46-50 | the line `str(p) + ' ' + str(c)` parses back to the edge `p -> c` |
| TaxonomyGraph.BuildMapsKeys | src/read_taxo.py:43-50 | the keys of `children_map` are the parent ids of the edges, and the keys of `parent_map` are the child ids |
| TaxonomyGraph.BuildMapsChildren | src/read_taxo.py:49 | `children_map[p]` lists the children of `p` from the edges, in edge order and with repeats |
| TaxonomyGraph.BuildMapsParents | src/read_taxo.py:50 | `parent_map[c]` lists the parents of `c` from the edges, in edge order and with repeats |
| TaxonomyGraph.EdgeCounts | src/read_taxo.py:49-50 | `c` occurs in the children of `p`, and `p` in the parents of `c`, as often as the edge `p -> c` occurs |
| TaxonomyGraph.MapsMirror | src/read_taxo.py:49-50 | the maps mirror each other: `c` is in `children_map[p]` iff `p` is in `parent_map[c]`, with the same multiplicity |
| TaxonomyGraph.ParentsOfMembers | src/read_taxo.py:50 | `p` is a parent of `c` exactly when the edge `p -> c` is in the file |
| TaxonomyGraph.ChildrenOfMembers | src/read_taxo.py:49 | `c` is a child of `p` exactly when the edge `p -> c` is in the file |
| TaxonomyGraph.KeysHaveParents | src/read_taxo.py:50 | an id is a key of `parent_map` exactly when its parent list is non-empty |
| TaxonomyGraph.Consistent | src/read_taxo.py:78 | models the assertion; its meaning is stated by ConsistentIff |
| TaxonomyGraph.ConsistentIff | src/read_taxo.py:78 | the assertion holds iff the category ids equal the child ids of the edges plus 0; parent ids play no part |
| Tables.TabulateValues | src/read_taxo.py:84-93 | a `range(n)` loop succeeds iff every step does, and then returns the `n` step results in order |
| Tables.TabulateFirstError | src/read_taxo.py:84-93 | a failed `range(n)` loop reports the error of its first failing step |
| RelationMatrix.RelationRow | src/read_taxo.py:85-92 | models one relation row, with numpy's `IndexError`; its meaning is stated by RelationRowSpec and RelationRowCases |
| RelationMatrix.FirstRejected | src/read_taxo.py:90-91 | nothing is rejected iff every index lies in numpy's range `[-n, n)`; otherwise the index named is listed and out of range |
| RelationMatrix.AssignSpec | src/read_taxo.py:90-91 | numpy's `row[idxs] = v` sets exactly the selected positions to `v` and leaves every other position unchanged |
| RelationMatrix.RelationRowSpec | src/read_taxo.py:85-92 | the row of `i` exists iff numpy accepts every id in `subtree`; then it has length `n` and, at each position, self beats parent (2) beats other subtree member (1) beats 0 |
| RelationMatrix.ChildrenOfAllMembers | src/read_taxo.py:87-88 | an id is in the extended `subtree` part iff it is a child of some parent of `i` |
| RelationMatrix.PositionsOfNatural | src/read_taxo.py:90-91 | for ids inside `[0, n)` the positions written are the ids themselves |
| RelationMatrix.RelationRowCases | src/read_taxo.py:85-92 | for ids in `[0, n)`, the row has length `n` and entries in {0,1,2}; `row[i] = 0`; every parent other than `i` has 2; a child of a parent that is neither `i` nor a parent has 1; every other entry is 0 |
| RelationMatrix.Matrix | src/read_taxo.py:84-93 | models the row loop; its meaning is stated by MatrixRows and MatrixFirstError |
| RelationMatrix.MatrixRows | src/read_taxo.py:84-93 | the matrix exists iff every row does; then row `i` is the relation row of node `i` |
| RelationMatrix.MatrixFirstError | src/read_taxo.py:84-92 | a failed matrix reports numpy's error for the first node whose row fails |
| LevelWalk.Level | src/read_taxo.py:98-102 | models the `while visit != 0` loop; its meaning is stated by LevelStops, LevelCycle, LevelSound and LevelRecurrence |
| LevelWalk.WalkCompose | src/read_taxo.py:100-101 | `a + b` first-parent steps are `a` steps followed by `b` steps |
| LevelWalk.WalkDistinct | src/read_taxo.py:100-101 | a walk that stops never visits a node twice before it stops |
| LevelWalk.VisitedCount | src/read_taxo.py:100-101 | the first `m` nodes of a stopping walk are `m` different keys of `parent_map` |
| LevelWalk.StopsWithinKeys | src/read_taxo.py:100-101 | a walk that stops does so within as many steps as `parent_map` has keys |
| LevelWalk.LevelStops | src/read_taxo.py:98-102 | when the loop ends after `k` steps, the level is `k` at the root, or a missing-parent error for the node where it stopped |
| LevelWalk.LevelCycle | src/read_taxo.py:98-102 | the model reports a cycle iff the source's `while` loop never terminates |
| LevelWalk.LevelSound | src/read_taxo.py:98-102 | a level is the number of steps that reach 0; a missing-parent error names the non-root node where the walk ends |
| LevelWalk.LevelRecurrence | src/read_taxo.py:98-102 | `level(0) = 0`; for a non-root node with a level, `level(x) = level(parent_map[x][0]) + 1` |
| LevelWalk.Levels | src/read_taxo.py:97-103 | models the level loop; its meaning is stated by LevelsValues and LevelsFirstError |
| LevelWalk.LevelsValues | src/read_taxo.py:97-103 | the level list exists iff every node has a level; then entry `i` is the level of `i` |
| LevelWalk.LevelsFirstError | src/read_taxo.py:97-102 | a failed level list reports the error of the first node without a level |
| Pipeline.Run | src/read_taxo.py:76-103 | models the main block; its meaning is stated by the lemmas below |
| Pipeline.CategoryCount | src/read_taxo.py:76-83 | the number of categories written as the header is the number of lines of the category file |
| Pipeline.RunCategoryError | src/read_taxo.py:31-33 | a malformed category file ends the run with the error of its first bad line, all earlier lines being well-formed |
| Pipeline.RunTreeError | src/read_taxo.py:46-50 | with a good category file, a malformed taxonomy file ends the run with the error of its first bad edge line |
| Pipeline.RunMatrixError | src/read_taxo.py:84-91 | a run that passes the assertion but not the matrix fails with numpy's error for the first node whose row fails |
| Pipeline.RunLevelsError | src/read_taxo.py:97-102 | a run that writes the matrix but not every level fails with the error of the first node whose level fails |
| Pipeline.ErrorKinds | src/read_taxo.py:31-102 | each step raises only its own kinds of error |
| Pipeline.RunInconsistent | src/read_taxo.py:78 | a run fails with the consistency error exactly when both files read cleanly but the assertion fails |
| Pipeline.RunOutput | src/read_taxo.py:76-103 | a successful run writes `n` rows of `n` entries holding the relation of each pair, and `n` levels, each a first-parent walk that ends at 0 |
| Pipeline.RootIsCategory | src/read_taxo.py:78 | the assertion forces 0 to be a category |
| Pipeline.NodeHasParent | src/read_taxo.py:78 | under the assertion, every non-root category has a first parent |
| Pipeline.ChildIsCategory | src/read_taxo.py:78 | under the assertion, every child id is a category id |
| Pipeline.MatrixWhenParentsKnown | src/read_taxo.py:78-92 | when parent ids are category ids as well, every relation row is built without an index error |
| Pipeline.WalkInside | src/read_taxo.py:97-102 | when parent ids are category ids, the first-parent walk stays among the categories |
| Pipeline.StopsAtRoot | src/read_taxo.py:97-102 | when parent ids are category ids, a first-parent walk that stops does so at the root 0 |
| Pipeline.LevelWhenParentsKnown | src/read_taxo.py:97-102 | when parent ids are category ids, no level fails on a missing parent; only a cycle can stop a level |
| Pipeline.UncheckedParent | src/read_taxo.py:78-91 | an example exists: with categories 0 and 1, the edge `5 -> 1` passes the assertion and numpy rejects 5 in row 1 |
| Pipeline.UnknownParentRejected | src/read_taxo.py:78-91 | under the assertion, any edge whose parent lies outside numpy's range `[-n, n)` makes the row of its child, and so the matrix, fail |
| Pipeline.WrappedParent | src/read_taxo.py:78-102 | a negative unknown parent escapes numpy: with categories 0 and 1 and the edge `-1 -> 1` the matrix is written and the run fails only in the level loop, on `-1` |
| Pipeline.ParentIsCategory | src/read_taxo.py:78 | an id listed in `parent_map` is the parent field of some edge, so it is a category id whenever every parent id is |
| ShortestPath.ReachMono | src/read_taxo.py:16-23 | what is reachable in `k` steps is reachable in any larger number of steps |
| ShortestPath.DistUnique | src/read_taxo.py:9-24 | the shortest-path distance is unique |
| ShortestPath.CountFalseMark | src/read_taxo.py:23 | marking an unvisited node lowers the unvisited count by exactly one |
| ShortestPath.NextLayer | src/read_taxo.py:18-23 | a neighbour of a dequeued node that is not within that node's distance lies exactly one step further from `u` |
| ShortestPath.Visit | src/read_taxo.py:21-23 | marking, recording and enqueueing an unvisited neighbour keeps the search invariants and never unmarks a node |
| ShortestPath.Expand | src/read_taxo.py:17-23 | scanning `x`'s neighbours marks and enqueues each unvisited one exactly once, at distance `distance[x] + 1`, and keeps the search invariants |
| ShortestPath.SearchStep | src/read_taxo.py:16-23 | one dequeue-and-scan step keeps the search invariants: the queue is ordered by distance and every recorded distance is the shortest |
| ShortestPath.ClosedReach | src/read_taxo.py:16-23 | when the queue runs empty, every node reachable from `u` is visited |
| ShortestPath.EnqueuedExactlyReachable | src/read_taxo.py:16-23 | when the queue runs empty, the nodes that ever entered it are exactly the nodes reachable from `u` |
| ShortestPath.SearchResult | src/read_taxo.py:16-24 | after the loop, `distance[v]` is the shortest distance of a reachable `v` and 0 otherwise, and at most `n` nodes were enqueued, exactly the reachable ones |
| ShortestPath.SearchStart | src/read_taxo.py:10-15 | before the loop only `u` is visited and queued, at distance 0, and the search invariant holds |
| ShortestPath.NearDistances | src/read_taxo.py:13-23 | `u` is at distance 0 from itself and every other neighbour of `u` is at distance 1 |
| ShortestPath.TreeDist | src/read_taxo.py:9-24 | returns the shortest-path distance from `u` to `v` if `v` is reachable and 0 otherwise; in particular 0 for `v == u` and 1 for any other neighbour. Each node is enqueued, and so dequeued, at most once: the queue order starts at `u`, has no repeats, at most `n` entries, and holds exactly the reachable nodes of `u` |
| PhraseCollapse.CollapseSegment | preprocess/utils.py:16-20 | models the inner `if`/`else` on one `<phrase>` segment; its meaning is stated by SegmentWithClose and SegmentWithoutClose |
| PhraseCollapse.Collapse | preprocess/utils.py:13-20 | models the building of `doc`; its meaning is stated by CollapseCons and CollapseMarkup |
| PhraseCollapse.CollapseLine | preprocess/utils.py:13-21 | models `doc.strip()` for one line; its meaning is stated by UntaggedLine, CleanMarkupLine and TagCanReform |
| PhraseCollapse.PhraseProcess | preprocess/utils.py:12-21 | exactly one output line per input line, in order: the collapsed, stripped line plus a newline |
| PhraseCollapse.UnderscoredSpec | preprocess/utils.py:18 | `'_'.join(s.split(' '))` replaces every space with `_`, one for one, and changes nothing else |
| PhraseCollapse.UnderscoredPointwise | preprocess/utils.py:18 | the underscored span has the same length, and each character is kept except that spaces become `_` |
| PhraseCollapse.SegmentWithoutClose | preprocess/utils.py:16-20 | a segment without a closing tag is copied verbatim |
| PhraseCollapse.SegmentWithClose | preprocess/utils.py:16-18 | a segment with a closing tag becomes its underscored phrase followed by the text up to the next closing tag; anything after a second closing tag is dropped |
| PhraseCollapse.CollapseCons | preprocess/utils.py:14-20 | the output is the processed segments concatenated in their original order |
| PhraseCollapse.UntaggedLine | preprocess/utils.py:14-21 | a line with neither tag is only stripped |
| PhraseCollapse.SegmentOfSpan | preprocess/utils.py:16-18 | a phrase followed by its closing tag and tag-free text becomes the underscored phrase then the text |
| PhraseCollapse.CollapseMarkup | preprocess/utils.py:13-20 | well-formed markup collapses to its plain lead text followed by each span's underscored phrase and trailing text |
| PhraseCollapse.CleanMarkupLine | preprocess/utils.py:13-21 | for well-formed markup whose text has no `<`, the output contains neither tag |
| PhraseCollapse.TagCanReform | preprocess/utils.py:14-21 | removing a tag can bring two halves of another tag together: `<phr<phrase>ase>` comes out as `<phrase>` |

## Left out

- Opening, reading and writing files, `argparse`, `tqdm`, and the `'\t'` formatting of output rows are I/O. The model takes the lines of the input files as parameters and returns the rows and levels as values.
- `print_taxo` only prints a console report and is not modelled. The `names2str` it uses is modelled.
- `preprocess()` in `preprocess/utils.py` is not modelled. It calls NLTK's `word_tokenize`, which is not part of this model.
- Text.ParseInt: Python `int()` is modelled for ASCII digits: surrounding whitespace (the characters `strip()` removes except U+001C..U+001F, which `int()` rejects), an optional sign, and single underscores between digits. Other Unicode decimal digits, which `int()` also accepts, are left out, and so is the `ValueError` Python 3.11 and later raise for a string of more than 4300 digits.
- Reading a missing key of a `defaultdict` inserts an empty list under that key. The model reads `[]` without inserting. No modelled output depends on the inserted keys.
- numpy's row assignment is modelled exactly: an index in `[-n, n)` is accepted and a negative one counts from the end; any other index raises `IndexError`. The model keeps this general rather than assuming ids lie in `[0, n)`.
- LevelWalk.Level: where the source's `while` loop runs for ever on a parent cycle, the model returns a `ParentCycle` error. `LevelCycle` proves this happens exactly on non-terminating walks.
- LevelWalk.Level: indexing `parent_map[x][0]` on an empty list raises `IndexError` in the source. The model reports it as `MissingParent(x)`.
- ShortestPath.TreeDist requires the adjacency to be a list over `[0, n)` whose neighbours lie in `[0, n)`, with `u` and `v` in range. `tree_dist` is never called in the file. Called with `children_map`, its natural argument, `visited = [0] * len(adj)` would be sized by the number of parents, so ordinary ids would raise `IndexError`; negative ids would wrap around. Those cases are excluded.
- ShortestPath.TreeDist: `queue.Queue` is modelled as a sequence with a read position. Thread safety plays no role.
- PhraseCollapse.CleanMarkupLine: the output of `phrase_process` does not, in general, avoid containing a tag. That holds only for well-formed markup whose text contains no `<`; `TagCanReform` shows a line where a tag re-forms.
