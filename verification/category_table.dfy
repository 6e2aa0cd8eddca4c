/**
 * `read_category` and `names2str` of `src/read_taxo.py`: the category file
 * holds one line per category, `<id> <name> <name> ...`, where line `k` must
 * declare id `k`.
 */
module CategoryTable {
  import opened Wrappers
  import opened Text
  import opened Taxonomy
  import opened LineReader

  /**
   * One line of the category file: its first field must parse as an integer
   * equal to the line's index; the remaining fields are the category's names.
   */
  function ParseCategoryLine(line: string, k: nat): Result<seq<string>, Error>
  {
    var fields := Fields(line);
    match ParseInt(fields[0])
    case None => Err(NotAnInteger(k))
    case Some(id) => if id == k then Ok(NameFields(line)) else Err(IdMismatch(k, id))
  }

  /** A line that passes its check yields exactly its name fields. */
  lemma ParseCategoryLineNames(line: string, k: nat, names: seq<string>)
    requires ParseCategoryLine(line, k) == Ok(names)
    ensures names == NameFields(line)
  {
  }

  /** The dictionary that stores `rows[k]` under key `k`. */
  function IndexMap(rows: seq<seq<string>>): (m: map<int, seq<string>>)
    ensures m.Keys == IdsBelow(|rows|)
    ensures forall k :: 0 <= k < |rows| ==> m[k] == rows[k]
  {
    map k | 0 <= k < |rows| :: rows[k]
  }

  /**
   * The assignments `id2category[i] = line` of the read loop, performed in
   * order starting from the empty dictionary.
   */
  function AssignRows(rows: seq<seq<string>>): map<int, seq<string>>
    decreases |rows|
  {
    if |rows| == 0 then map[]
    else AssignRows(rows[..|rows| - 1])[|rows| - 1 := rows[|rows| - 1]]
  }

  /**
   * The loop of assignments builds the dictionary keyed by `range(len(rows))`
   * that stores `rows[k]` under `k`: no key is overwritten or left over.
   */
  lemma {:induction false} AssignRowsIndexMap(rows: seq<seq<string>>)
    ensures AssignRows(rows) == IndexMap(rows)
    decreases |rows|
  {
    if |rows| > 0 {
      var prefix := rows[..|rows| - 1];
      AssignRowsIndexMap(prefix);
      var m, r := AssignRows(rows), IndexMap(rows);
      assert m == IndexMap(prefix)[|rows| - 1 := rows[|rows| - 1]];
      assert forall k :: k in m <==> k in r;
      forall k | k in m
        ensures m[k] == r[k]
      {
        if k < |prefix| {
          assert prefix[k] == rows[k];
        }
      }
    }
  }

  /** The fields of a category line after its id: the category's names. */
  function NameFields(line: string): seq<string>
  {
    Fields(line)[1..]
  }

  /** `read_category`: the dictionary from line index to name fields. */
  function ReadCategory(lines: seq<string>): Result<map<int, seq<string>>, Error>
  {
    var rows :- ParseAll(lines, ParseCategoryLine);
    Ok(AssignRows(rows))
  }

  /** `read_category` succeeds exactly when every line declares its own index. */
  lemma ReadCategoryAccepts(lines: seq<string>)
    ensures ReadCategory(lines).Ok? <==> AllParse(lines, ParseCategoryLine, |lines|)
  {
    ParseAllAccepts(lines, ParseCategoryLine);
  }

  /**
   * On success the ids are `range(len(lines))` and id `k` holds the fields of
   * line `k` after the id, in order.
   */
  lemma ReadCategoryContents(lines: seq<string>)
    requires ReadCategory(lines).Ok?
    ensures ReadCategory(lines).value.Keys == IdsBelow(|lines|)
    ensures forall k :: 0 <= k < |lines| ==> ReadCategory(lines).value[k] == NameFields(lines[k])
  {
    var rows := ParseAll(lines, ParseCategoryLine).value;
    ParseAllValues(lines, ParseCategoryLine);
    AssignRowsIndexMap(rows);
    assert ReadCategory(lines).value == IndexMap(rows);
    forall k | 0 <= k < |lines|
      ensures rows[k] == NameFields(lines[k])
    {
      ParseCategoryLineNames(lines[k], k, rows[k]);
    }
  }

  /** A failed read reports the error of the first line that fails its check. */
  lemma ReadCategoryFirstError(lines: seq<string>)
    requires ReadCategory(lines).Err?
    ensures exists j ::
      && 0 <= j < |lines|
      && AllParse(lines, ParseCategoryLine, j)
      && ParseCategoryLine(lines[j], j) == Err(ReadCategory(lines).error)
  {
    ParseAllFirstError(lines, ParseCategoryLine);
  }

  /** `names2str`: the name fields of a category, space-joined, in brackets. */
  function NamesToStr(names: seq<string>): (r: string)
    ensures |r| >= 2 && r[0] == '[' && r[|r| - 1] == ']'
  {
    "[" + Join(names, " ") + "]"
  }

  /** The bracketed form loses nothing when no name contains a space. */
  lemma NamesToStrInverse(names: seq<string>)
    requires |names| >= 1
    requires forall k :: 0 <= k < |names| ==> ' ' !in names[k]
    ensures var r := NamesToStr(names); Split(r[1..|r| - 1], " ") == names
  {
    var r := NamesToStr(names);
    assert r[1..|r| - 1] == Join(names, " ");
    JoinThenSplit(names, ' ');
  }

  /** The name fields of a line never contain a space. */
  lemma NameFieldsSpaceFree(line: string)
    ensures forall j :: 0 <= j < |NameFields(line)| ==> ' ' !in NameFields(line)[j]
  {
    var fields := Fields(line);
    SplitPiecesAreFree(Strip(line), " ");
    forall j | 0 <= j < |fields|
      ensures ' ' !in fields[j]
    {
      forall i | 0 <= i < |fields[j]|
        ensures fields[j][i] != ' '
      {
        OccursChar(fields[j], ' ', i);
      }
    }
  }

  /**
   * The names `read_category` stores for a category never contain a space,
   * so `names2str` of a non-empty name list can be split back into it.
   */
  lemma CategoryNamesRoundTrip(lines: seq<string>, k: int)
    requires ReadCategory(lines).Ok? && k in ReadCategory(lines).value
    requires |ReadCategory(lines).value[k]| >= 1
    ensures var r := NamesToStr(ReadCategory(lines).value[k]);
      Split(r[1..|r| - 1], " ") == ReadCategory(lines).value[k]
  {
    ReadCategoryContents(lines);
    NameFieldsSpaceFree(lines[k]);
    NamesToStrInverse(ReadCategory(lines).value[k]);
  }
}
