/** The edit operations as the engine receives them (already decoded from
    JSON), and their parsed form with anchors resolved to `LineRef`s. */
module Specs {
  import opened Results
  import opened Strings
  import opened Anchors

  /** `HashlineEdit`: the four operation shapes of the edits payload. A
      missing `all` is `None`. */
  datatype Edit =
    | SetLine(anchor: string, newText: string)
    | ReplaceLines(startAnchor: string, endAnchor: string, newText: string)
    | InsertAfter(anchor: string, text: string)
    | Replace(oldText: string, newText: string, all: Option<bool>)

  /** The local `ParsedSpec` enum of `apply_hashline_edits`. */
  datatype ParsedSpec =
    | Single(r: LineRef, dst: string)
    | Range(start: LineRef, end: LineRef, dst: string)
    | Insert(after: LineRef, dst: string)
    | ReplaceText(oldText: string, newText: string, all: bool)

  /** `split_dst_lines`: no lines for the empty text, otherwise the pieces
      between newlines. */
  function SplitDstLines(dst: string): (r: seq<string>)
    ensures forall i :: 0 <= i < |r| ==> '\n' !in r[i]
    ensures r == [] <==> dst == []
    ensures Join(r, '\n') == dst
  {
    if dst == "" then [] else JoinSplit(dst, '\n'); Split(dst, '\n')
  }

  /** Any block of newline-free lines survives being joined and split: the
      text an edit carries decides the lines it inserts. */
  lemma SplitDstLinesJoin(ls: seq<string>)
    requires forall i :: 0 <= i < |ls| ==> '\n' !in ls[i]
    requires ls != [] && ls != [""]
    ensures SplitDstLines(Join(ls, '\n')) == ls
  {
    SplitJoin(ls, '\n');
    if |ls| >= 2 {
      assert Join(ls, '\n') == ls[0] + ['\n'] + Join(ls[1..], '\n');
    }
  }

  /** The `idx`-free body of the parse loop for one edit: the anchors are
      parsed before the text is checked, and `all` defaults to false. */
  function ParseEdit(e: Edit): Result<ParsedSpec> {
    match e
    case SetLine(a, t) =>
      var r :- ParseLineRef(a);
      Ok(Single(r, t))
    case ReplaceLines(a, b, t) =>
      var start :- ParseLineRef(a);
      var end :- ParseLineRef(b);
      Ok(Range(start, end, t))
    case InsertAfter(a, t) =>
      var after :- ParseLineRef(a);
      if t == "" then Err(EmptyInsertText) else Ok(Insert(after, t))
    case Replace(o, n, all) =>
      if o == "" then Err(EmptyOldText)
      else Ok(ReplaceText(o, n, match all case Some(b) => b case None => false))
  }

  /** An edit parses exactly when its anchors parse and its required text
      is present, and then to the same operation over the parsed anchors.
      An insertion reports a bad anchor before an empty text. */
  lemma ParseEditSpec(e: Edit)
    ensures ParseEdit(e).Ok? <==> (forall a | a in AnchorsOf(e) :: ParseLineRef(a).Ok?) && TextPresent(e)
    ensures ParseEdit(e).Ok? ==> AnchorsParse(e, ParseEdit(e).value)
    ensures e.InsertAfter? && ParseLineRef(e.anchor).Err? ==> ParseEdit(e) == Err(ParseLineRef(e.anchor).error)
    ensures e.InsertAfter? && ParseLineRef(e.anchor).Ok? && e.text == "" ==> ParseEdit(e) == Err(EmptyInsertText)
    ensures e.Replace? && e.oldText == "" ==> ParseEdit(e) == Err(EmptyOldText)
  {
  }

  /** The anchor strings an edit carries. */
  function AnchorsOf(e: Edit): seq<string> {
    match e
    case SetLine(a, _) => [a]
    case ReplaceLines(a, b, _) => [a, b]
    case InsertAfter(a, _) => [a]
    case Replace(_, _, _) => []
  }

  /** The texts the engine refuses to be empty: an insertion's text and a
      replacement's `old_text`. */
  predicate TextPresent(e: Edit) {
    (e.InsertAfter? ==> e.text != "") && (e.Replace? ==> e.oldText != "")
  }

  /** `p` is what `e` parses to: the same operation, its anchors parsed,
      its texts carried over, and non-empty where the engine insists. */
  predicate AnchorsParse(e: Edit, p: ParsedSpec) {
    match e
    case SetLine(a, t) => ParseLineRef(a).Ok? && p == Single(ParseLineRef(a).value, t)
    case ReplaceLines(a, b, t) =>
      ParseLineRef(a).Ok? && ParseLineRef(b).Ok?
      && p == Range(ParseLineRef(a).value, ParseLineRef(b).value, t)
    case InsertAfter(a, t) =>
      ParseLineRef(a).Ok? && t != "" && p == Insert(ParseLineRef(a).value, t)
    case Replace(o, n, all) =>
      o != "" && p == ReplaceText(o, n, all == Some(true))
  }

  /** The parse loop: every edit in order, the first failure aborting. */
  function ParseEdits(es: seq<Edit>): Result<seq<ParsedSpec>> {
    MapResult(ParseEdit, es)
  }

  /** Parsing succeeds exactly when every edit parses, and then each parsed
      spec is its edit's; otherwise the error is that of the first edit that
      fails. */
  lemma ParseEditsSpec(es: seq<Edit>)
    ensures ParseEdits(es).Ok? <==> forall i :: 0 <= i < |es| ==> ParseEdit(es[i]).Ok?
    ensures ParseEdits(es).Ok? ==>
      |ParseEdits(es).value| == |es|
      && forall i :: 0 <= i < |es| ==> ParseEdit(es[i]) == Ok(ParseEdits(es).value[i])
    ensures ParseEdits(es).Err? ==>
      exists k :: 0 <= k < |es| && ParseEdit(es[k]).Err?
        && ParseEdits(es).error == ParseEdit(es[k]).error
        && forall i :: 0 <= i < k ==> ParseEdit(es[i]).Ok?
  {
    MapResultOk(ParseEdit, es);
    MapResultFirstError(ParseEdit, es);
  }

  /** The method form of the parse loop, pushing onto `parsed`. */
  method ParseAll(edits: seq<Edit>) returns (r: Result<seq<ParsedSpec>>)
    ensures r == ParseEdits(edits)
  {
    var parsed: seq<ParsedSpec> := [];
    for i := 0 to |edits|
      invariant MapResult(ParseEdit, edits[..i]) == Ok(parsed)
    {
      assert edits[..i + 1][..i] == edits[..i];
      var spec := ParseEdit(edits[i]);
      if spec.Err? {
        MapResultPrefixErr(ParseEdit, edits, i + 1);
        return Err(spec.error);
      }
      parsed := parsed + [spec.value];
    }
    assert edits[..|edits|] == edits;
    r := Ok(parsed);
  }
}
