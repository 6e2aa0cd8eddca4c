/**
 * The loop shape shared by `read_category` and `read_tree`: every line of a
 * file is parsed in order and the first line that fails aborts the read.
 */
module LineReader {
  import opened Wrappers

  /** Parses `lines` in order with `parse(line, index)`; the first failure wins. */
  function ParseAll<T, E>(lines: seq<string>, parse: (string, nat) -> Result<T, E>): Result<seq<T>, E>
    decreases |lines|
  {
    if |lines| == 0 then Ok([])
    else
      var k := |lines| - 1;
      var prev :- ParseAll(lines[..k], parse);
      var x :- parse(lines[k], k);
      Ok(prev + [x])
  }

  /** Each of the first `n` lines parses. */
  ghost predicate AllParse<T, E>(lines: seq<string>, parse: (string, nat) -> Result<T, E>, n: int)
    requires n <= |lines|
  {
    forall k :: 0 <= k < n ==> parse(lines[k], k).Ok?
  }

  /** The read succeeds exactly when every line parses. */
  lemma {:induction false} ParseAllAccepts<T, E>(lines: seq<string>, parse: (string, nat) -> Result<T, E>)
    ensures ParseAll(lines, parse).Ok? <==> AllParse(lines, parse, |lines|)
    decreases |lines|
  {
    if |lines| > 0 {
      var k := |lines| - 1;
      var prefix := lines[..k];
      ParseAllAccepts(prefix, parse);
      assert forall j :: 0 <= j < k ==> prefix[j] == lines[j];
    }
  }

  /** A successful read holds one value per line: the value its line parses to. */
  lemma {:induction false} ParseAllValues<T, E>(lines: seq<string>, parse: (string, nat) -> Result<T, E>)
    requires ParseAll(lines, parse).Ok?
    ensures |ParseAll(lines, parse).value| == |lines|
    ensures forall k :: 0 <= k < |lines| ==> parse(lines[k], k) == Ok(ParseAll(lines, parse).value[k])
    decreases |lines|
  {
    if |lines| > 0 {
      var k := |lines| - 1;
      var prefix := lines[..k];
      ParseAllValues(prefix, parse);
      assert forall j :: 0 <= j < k ==> prefix[j] == lines[j];
    }
  }

  /** A failed read reports the error of the first line that does not parse. */
  lemma {:induction false} ParseAllFirstError<T, E>(lines: seq<string>, parse: (string, nat) -> Result<T, E>)
    requires ParseAll(lines, parse).Err?
    ensures exists j ::
      && 0 <= j < |lines|
      && AllParse(lines, parse, j)
      && parse(lines[j], j) == Err(ParseAll(lines, parse).error)
    decreases |lines|
  {
    var k := |lines| - 1;
    var prefix := lines[..k];
    assert forall i :: 0 <= i < k ==> prefix[i] == lines[i];
    if ParseAll(prefix, parse).Err? {
      ParseAllFirstError(prefix, parse);
    } else {
      ParseAllAccepts(prefix, parse);
    }
  }
}
