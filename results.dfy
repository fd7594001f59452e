/** Shared value types of the hashline engine: line numbers, mismatch
    records, the error kinds the engine reports, and the Option/Result
    wrappers used for its error paths. */
module Results {

  /** A 1-indexed line number (anchors are never 0-indexed). */
  type Pos = n: nat | 1 <= n witness 1

  datatype Option<T> = None | Some(value: T)

  /** A stale anchor: the line it names, the hash it expected, and the hash
      that line has now. */
  datatype Mismatch = Mismatch(line: Pos, expected: string, actual: string)

  /** One constructor per `bail!`/`anyhow!` site of the engine. */
  datatype Error =
    | InvalidAnchor(anchor: string)          // no ':' in the anchor
    | TooManyColons(anchor: string)          // more than one ':'
    | InvalidLineNumber(anchor: string)      // line part is not a usize
    | ZeroLine(anchor: string)               // line part is 0
    | InvalidHash(anchor: string)            // hash part empty after trimming
    | EmptyInsertText                        // insert_after.text == ""
    | EmptyOldText                           // replace.old_text == ""
    | LineOutOfRange(line: nat, lineCount: nat)
    | StartAfterEnd                          // start anchor after end anchor, after relocation
    | StaleAnchors(mismatches: seq<Mismatch>, message: string)
    | RangeOutOfBounds(lineCount: nat)
    | InvalidRange
    | OldTextNotFound
    | NoChanges                              // edits produced identical content

  datatype Result<T> = Ok(value: T) | Err(error: Error) {
    predicate IsFailure() { Err? }

    function PropagateFailure<U>(): Result<U>
      requires Err?
    {
      Err(error)
    }

    function Extract(): T
      requires Ok?
    {
      value
    }
  }

  /** Apply `f` to every element in order; the first failure aborts the
      whole sequence (Rust's `?` inside a loop that pushes results). */
  function MapResult<A, B>(f: A -> Result<B>, xs: seq<A>): Result<seq<B>> {
    if xs == [] then Ok([])
    else
      var init :- MapResult(f, xs[..|xs| - 1]);
      var y :- f(xs[|xs| - 1]);
      Ok(init + [y])
  }

  /** `MapResult` succeeds exactly when `f` succeeds on every element, and
      then holds those results in order. */
  lemma {:induction false} MapResultOk<A, B>(f: A -> Result<B>, xs: seq<A>)
    ensures MapResult(f, xs).Ok? <==> forall i :: 0 <= i < |xs| ==> f(xs[i]).Ok?
    ensures MapResult(f, xs).Ok? ==>
      |MapResult(f, xs).value| == |xs|
      && forall i :: 0 <= i < |xs| ==> f(xs[i]) == Ok(MapResult(f, xs).value[i])
  {
    if xs != [] {
      var init := xs[..|xs| - 1];
      MapResultOk(f, init);
      assert forall i :: 0 <= i < |init| ==> xs[i] == init[i];
    }
  }

  /** A failing `MapResult` reports the error of the first element `f`
      fails on. */
  lemma {:induction false} MapResultFirstError<A, B>(f: A -> Result<B>, xs: seq<A>)
    ensures MapResult(f, xs).Err? ==>
      exists k :: 0 <= k < |xs| && f(xs[k]).Err?
        && MapResult(f, xs).error == f(xs[k]).error
        && forall i :: 0 <= i < k ==> f(xs[i]).Ok?
  {
    if xs != [] {
      var init := xs[..|xs| - 1];
      MapResultFirstError(f, init);
      MapResultOk(f, init);
      assert forall i :: 0 <= i < |init| ==> xs[i] == init[i];
      if MapResult(f, init).Err? {
        var k :| 0 <= k < |init| && f(init[k]).Err?
          && MapResult(f, init).error == f(init[k]).error
          && forall i :: 0 <= i < k ==> f(init[i]).Ok?;
        assert xs[k] == init[k];
      }
    }
  }

  /** Once a prefix fails, the whole sequence fails with that error. */
  lemma {:induction false} MapResultPrefixErr<A, B>(f: A -> Result<B>, xs: seq<A>, n: nat)
    requires n <= |xs| && MapResult(f, xs[..n]).Err?
    ensures MapResult(f, xs) == MapResult(f, xs[..n])
    decreases |xs| - n
  {
    if n < |xs| {
      assert xs[..n + 1][..n] == xs[..n];
      MapResultPrefixErr(f, xs, n + 1);
    } else {
      assert xs[..n] == xs;
    }
  }

  lemma MapResultSingleton<A, B>(f: A -> Result<B>, x: A)
    requires f(x).Ok?
    ensures MapResult(f, [x]) == Ok([f(x).value])
  {
    assert [x][..0] == [];
    assert MapResult(f, [x][..0]) == Ok([]);
    assert [] + [f(x).value] == [f(x).value];
  }

  lemma MapResultPair<A, B>(f: A -> Result<B>, x: A, y: A)
    requires f(x).Ok? && f(y).Ok?
    ensures MapResult(f, [x, y]) == Ok([f(x).value, f(y).value])
  {
    MapResultSingleton(f, x);
    assert [x, y][..1] == [x];
    assert [f(x).value] + [f(y).value] == [f(x).value, f(y).value];
  }
}
