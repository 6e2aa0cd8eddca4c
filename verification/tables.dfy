/**
 * The loop shape shared by the matrix and the level file of
 * `src/read_taxo.py`: one entry per node `0 .. n-1`, in order, where the
 * first node that fails aborts the whole file.
 */
module Tables {
  import opened Wrappers

  /** `[f(0), ..., f(n-1)]`, or the error of the first `i` whose `f(i)` fails. */
  function Tabulate<T, E>(n: nat, f: nat -> Result<T, E>): Result<seq<T>, E>
  {
    if n == 0 then Ok([])
    else
      var prev :- Tabulate(n - 1, f);
      var x :- f(n - 1);
      Ok(prev + [x])
  }

  /** The table exists exactly when every entry does, and then entry `i` is `f(i)`. */
  lemma {:induction false} TabulateValues<T, E>(n: nat, f: nat -> Result<T, E>)
    ensures Tabulate(n, f).Ok? <==> forall i: nat :: i < n ==> f(i).Ok?
    ensures Tabulate(n, f).Ok? ==>
      && |Tabulate(n, f).value| == n
      && forall i: nat :: i < n ==> f(i) == Ok(Tabulate(n, f).value[i])
    decreases n
  {
    if n > 0 {
      TabulateValues(n - 1, f);
    }
  }

  /** A failed table reports the error of the first failing entry. */
  lemma {:induction false} TabulateFirstError<T, E>(n: nat, f: nat -> Result<T, E>)
    requires Tabulate(n, f).Err?
    ensures exists i: nat ::
      && i < n
      && (forall j: nat :: j < i ==> f(j).Ok?)
      && f(i) == Err(Tabulate(n, f).error)
    decreases n
  {
    if Tabulate(n - 1, f).Err? {
      TabulateFirstError(n - 1, f);
    } else {
      TabulateValues(n - 1, f);
    }
  }
}
