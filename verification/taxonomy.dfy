/**
 * Types shared by the taxonomy builder of `src/read_taxo.py`: the errors that
 * abort a run, an edge of the taxonomy file, and the two adjacency maps.
 */
module Taxonomy {
  import opened Text

  /** Why a run of the taxonomy builder aborts. */
  datatype Error =
    /** `int(...)` raised `ValueError` on the given line of an input file. */
    | NotAnInteger(line: nat)
    /** The category line at index `line` declared id `id` instead. */
    | IdMismatch(line: nat, id: int)
    /** The edge line at index `line` has `fields` fields instead of two. */
    | EdgeArity(line: nat, fields: nat)
    /** The category ids differ from the child ids of the edge list plus 0. */
    | Inconsistent
    /** numpy rejects `index` while building the relation row of `node`. */
    | IndexOutOfRange(node: int, index: int)
    /** The first-parent walk reached `node`, which has no recorded parent. */
    | MissingParent(node: int)
    /** The first-parent walk from `node` never reaches 0: the loop never ends. */
    | ParentCycle(node: int)

  /** One line `parent child` of the taxonomy file. */
  datatype Edge = Edge(parent: int, child: int)

  /** `parent_map` and `children_map`, two `defaultdict(list)` keyed by id. */
  datatype Graph = Graph(parents: map<int, seq<int>>, children: map<int, seq<int>>)

  /** Reading `m[k]` from a `defaultdict(list)`: a missing key reads as `[]`. */
  function Get(m: map<int, seq<int>>, k: int): seq<int>
  {
    if k in m then m[k] else []
  }

  /** The ids of `range(n)`, as a set. */
  function IdsBelow(n: int): (r: set<int>)
    decreases n
    ensures forall k :: k in r <==> 0 <= k < n
    ensures n >= 0 ==> |r| == n
  {
    if n <= 0 then {} else IdsBelow(n - 1) + {n - 1}
  }

  /** The fields of an input line, `line.strip().split(' ')`. */
  function Fields(line: string): (r: seq<string>)
    ensures |r| >= 1
  {
    Split(Strip(line), " ")
  }

  /** Stripping a line drops its newline when the text has no edge whitespace. */
  lemma StripNewline(s: string)
    requires |s| > 0 && !IsSpace(s[0]) && !IsSpace(s[|s| - 1])
    ensures Strip(s + "\n") == s
  {
    var t := s + "\n";
    assert TrailingSpaces(t) == 1 + TrailingSpaces(s) by {
      assert t[..|t| - 1] == s;
    }
    assert LeadingSpaces(t) == 0;
    assert t[0..] == t;
    assert t[..|t| - 1] == s;
  }

  /** Tokens that are non-empty and free of whitespace. */
  predicate IsToken(t: string)
  {
    |t| > 0 && forall i :: 0 <= i < |t| ==> !IsSpace(t[i])
  }

  /** Joining tokens keeps the first token's first and the last token's last character at the ends. */
  lemma {:induction false} JoinEnds(tokens: seq<string>, sep: string)
    requires |tokens| >= 1 && forall k :: 0 <= k < |tokens| ==> |tokens[k]| > 0
    ensures var s := Join(tokens, sep);
      && |s| > 0
      && s[0] == tokens[0][0]
      && s[|s| - 1] == tokens[|tokens| - 1][|tokens[|tokens| - 1]| - 1]
    decreases |tokens|
  {
    if |tokens| > 1 {
      JoinEnds(tokens[1..], sep);
    }
  }

  /** The fields of a line written as space-separated tokens are those tokens. */
  lemma FieldsOfTokens(tokens: seq<string>)
    requires |tokens| >= 1 && forall k :: 0 <= k < |tokens| ==> IsToken(tokens[k])
    ensures Fields(Join(tokens, " ") + "\n") == tokens
  {
    JoinEnds(tokens, " ");
    var s := Join(tokens, " ");
    var last := tokens[|tokens| - 1];
    assert !IsSpace(s[0]) && !IsSpace(s[|s| - 1]);
    StripNewline(s);
    forall k | 0 <= k < |tokens|
      ensures ' ' !in tokens[k]
    {
      assert forall i :: 0 <= i < |tokens[k]| ==> tokens[k][i] != ' ';
    }
    JoinThenSplit(tokens, ' ');
  }
}
