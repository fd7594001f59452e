/** `validate_or_relocate` and the validate loop of `apply_hashline_edits`:
    every anchor is checked against the current lines, moved to the one
    line that uniquely carries its hash when it no longer matches, or
    recorded as stale. */
module Relocation {
  import opened Results
  import opened Fingerprint
  import opened Anchors
  import opened Uniqueness
  import opened Specs

  /** `validate_or_relocate` on one anchor: the anchor as it leaves the
      call, and the mismatch list after it. An anchor past the end is an
      error, not a mismatch. */
  function ValidateOrRelocate(r: LineRef, lines: seq<string>, unique: map<string, Pos>,
                              mm: seq<Mismatch>, xxh: Hasher): (res: Result<(LineRef, seq<Mismatch>)>)
    ensures res.Err? <==> r.line > |lines|
    ensures res.Err? ==> res.error == LineOutOfRange(r.line, |lines|)
    ensures res.Ok? ==> res.value.0.hash == r.hash
  {
    if r.line > |lines| then Err(LineOutOfRange(r.line, |lines|))
    else
      var actual := LineHash(lines[r.line - 1], xxh);
      if actual == r.hash then Ok((r, mm))
      else if r.hash in unique then Ok((r.(line := unique[r.hash]), mm))
      else Ok((r, mm + [Mismatch(r.line, r.hash, actual)]))
  }

  /** `r` names a line of `lines` whose fingerprint is `r`'s hash. */
  predicate Resolved(r: LineRef, lines: seq<string>, xxh: Hasher) {
    r.line <= |lines| && LineHash(lines[r.line - 1], xxh) == r.hash
  }

  /** A stale-anchor record as `validate_or_relocate` makes it: the line
      exists, `actual` is its fingerprint, differs from `expected`, and no
      line carries `expected` uniquely. */
  predicate Accurate(m: Mismatch, lines: seq<string>, unique: map<string, Pos>, xxh: Hasher) {
    m.line <= |lines| && m.actual == LineHash(lines[m.line - 1], xxh)
    && m.expected != m.actual && m.expected !in unique
  }

  /** An anchor that matches its line is left alone. */
  lemma ValidateOrRelocateKeeps(r: LineRef, lines: seq<string>, unique: map<string, Pos>,
                                mm: seq<Mismatch>, xxh: Hasher)
    requires Resolved(r, lines, xxh)
    ensures ValidateOrRelocate(r, lines, unique, mm, xxh) == Ok((r, mm))
  {
  }

  /** Against the `unique` map of the same lines, an anchor that leaves
      without a new mismatch names a line carrying its hash, and it moved
      only if its own line did not match and exactly one line carries the
      hash. */
  lemma ValidateOrRelocateResolves(r: LineRef, lines: seq<string>, unique: map<string, Pos>,
                                   mm: seq<Mismatch>, xxh: Hasher)
    requires unique == UniqueLines(LineHashes(lines, xxh))
    requires ValidateOrRelocate(r, lines, unique, mm, xxh).Ok?
    ensures var v := ValidateOrRelocate(r, lines, unique, mm, xxh).value;
      (v.1 == mm ==> Resolved(v.0, lines, xxh))
      && (v.0.line != r.line ==>
            !Resolved(r, lines, xxh) && OnlyAt(LineHashes(lines, xxh), r.hash, v.0.line - 1))
  {
    var hs := LineHashes(lines, xxh);
    var v := ValidateOrRelocate(r, lines, unique, mm, xxh).value;
    if Resolved(r, lines, xxh) {
      assert v == (r, mm);
    } else if r.hash in unique {
      assert v == (r.(line := unique[r.hash]), mm);
      UniqueLinesSpec(hs, r.hash);
      var k := unique[r.hash] as int - 1;
      assert OnlyAt(hs, r.hash, k);
      assert hs[k] == LineHash(lines[k], xxh);
    } else {
      assert v.0 == r && v.1 == mm + [Mismatch(r.line, r.hash, LineHash(lines[r.line - 1], xxh))];
      assert |v.1| != |mm|;
    }
  }

  /** Against the `unique` map of the same lines, a new mismatch is
      appended only for an anchor that stays where it was, its record is
      accurate, and no line carries the expected hash uniquely. */
  lemma ValidateOrRelocateRecords(r: LineRef, lines: seq<string>, unique: map<string, Pos>,
                                  mm: seq<Mismatch>, xxh: Hasher)
    requires unique == UniqueLines(LineHashes(lines, xxh))
    requires ValidateOrRelocate(r, lines, unique, mm, xxh).Ok?
    ensures var v := ValidateOrRelocate(r, lines, unique, mm, xxh).value;
      v.1 != mm ==>
        v.0 == r
        && v.1 == mm + [Mismatch(r.line, r.hash, LineHash(lines[r.line - 1], xxh))]
        && Accurate(v.1[|mm|], lines, unique, xxh)
        && forall i :: !OnlyAt(LineHashes(lines, xxh), r.hash, i)
  {
    var v := ValidateOrRelocate(r, lines, unique, mm, xxh).value;
    if v.1 != mm {
      assert LineHash(lines[r.line - 1], xxh) != r.hash && r.hash !in unique;
      UniqueLinesSpec(LineHashes(lines, xxh), r.hash);
    }
  }

  /** An anchor whose own line does not carry its hash, when exactly one
      line does, moves to that line and records nothing. */
  lemma ValidateOrRelocateMoves(r: LineRef, lines: seq<string>, unique: map<string, Pos>,
                                mm: seq<Mismatch>, xxh: Hasher, j: Pos)
    requires unique == UniqueLines(LineHashes(lines, xxh))
    requires r.line <= |lines| && !Resolved(r, lines, xxh)
    requires OnlyAt(LineHashes(lines, xxh), r.hash, j - 1)
    ensures ValidateOrRelocate(r, lines, unique, mm, xxh) == Ok((LineRef(j, r.hash), mm))
  {
    UniqueLinesSpec(LineHashes(lines, xxh), r.hash);
    assert r.hash in unique && unique[r.hash] == j;
  }

  /** Re-validating an anchor that validated without a mismatch changes
      nothing: the relocated anchor now matches. */
  lemma ValidateOrRelocateIdempotent(r: LineRef, r': LineRef, lines: seq<string>, unique: map<string, Pos>,
                                     mm: seq<Mismatch>, mm': seq<Mismatch>, xxh: Hasher)
    requires unique == UniqueLines(LineHashes(lines, xxh))
    requires ValidateOrRelocate(r, lines, unique, mm, xxh) == Ok((r', mm))
    ensures ValidateOrRelocate(r', lines, unique, mm', xxh) == Ok((r', mm'))
  {
    ValidateOrRelocateResolves(r, lines, unique, mm, xxh);
  }

  /** Following the quick fix of a mismatch, an anchor carrying the line's
      current hash, resolves in place. */
  lemma QuickFixResolves(m: Mismatch, lines: seq<string>, unique: map<string, Pos>,
                         mm: seq<Mismatch>, xxh: Hasher)
    requires Accurate(m, lines, unique, xxh)
    ensures ValidateOrRelocate(LineRef(m.line, m.actual), lines, unique, mm, xxh)
      == Ok((LineRef(m.line, m.actual), mm))
  {
  }

  /** The method form of `validate_or_relocate`, hashing with the loop of
      `compute_line_hash`. */
  method ValidateOrRelocateAnchor(r: LineRef, lines: seq<string>, unique: map<string, Pos>,
                                  mismatches: seq<Mismatch>, xxh: Hasher)
    returns (res: Result<(LineRef, seq<Mismatch>)>)
    ensures res == ValidateOrRelocate(r, lines, unique, mismatches, xxh)
  {
    if r.line < 1 || r.line > |lines| {
      return Err(LineOutOfRange(r.line, |lines|));
    }
    var actual := ComputeLineHash(lines[r.line - 1], xxh);
    if actual == r.hash {
      return Ok((r, mismatches));
    }
    if r.hash in unique {
      var relocated := unique[r.hash];
      return Ok((r.(line := relocated), mismatches));
    }
    res := Ok((r, mismatches + [Mismatch(r.line, r.hash, actual)]));
  }

  // ---------------------------------------------------------------------
  // The validate loop

  /** One iteration of the validate loop: every anchor of the spec in
      turn; a range whose start ends up after its end is refused, even when
      mismatches were recorded. */
  function ValidateSpec(p: ParsedSpec, lines: seq<string>, unique: map<string, Pos>,
                        mm: seq<Mismatch>, xxh: Hasher): Result<(ParsedSpec, seq<Mismatch>)> {
    match p
    case Single(r, dst) =>
      var v :- ValidateOrRelocate(r, lines, unique, mm, xxh);
      Ok((Single(v.0, dst), v.1))
    case Range(start, end, dst) =>
      var v :- ValidateOrRelocate(start, lines, unique, mm, xxh);
      var w :- ValidateOrRelocate(end, lines, unique, v.1, xxh);
      if v.0.line > w.0.line then Err(StartAfterEnd)
      else Ok((Range(v.0, w.0, dst), w.1))
    case Insert(after, dst) =>
      var v :- ValidateOrRelocate(after, lines, unique, mm, xxh);
      Ok((Insert(v.0, dst), v.1))
    case ReplaceText(_, _, _) =>
      Ok((p, mm))
  }

  /** The validate loop over all parsed specs, threading the mismatch list;
      the first error aborts. */
  function ValidateSpecs(ps: seq<ParsedSpec>, lines: seq<string>, unique: map<string, Pos>,
                         mm: seq<Mismatch>, xxh: Hasher): Result<(seq<ParsedSpec>, seq<Mismatch>)> {
    if ps == [] then Ok(([], mm))
    else
      var v :- ValidateSpecs(ps[..|ps| - 1], lines, unique, mm, xxh);
      var w :- ValidateSpec(ps[|ps| - 1], lines, unique, v.1, xxh);
      Ok((v.0 + [w.0], w.1))
  }

  /** One more turn of the validate loop. */
  lemma ValidateSpecsSnoc(ps: seq<ParsedSpec>, i: nat, lines: seq<string>, unique: map<string, Pos>,
                          xxh: Hasher, done: seq<ParsedSpec>, mm: seq<Mismatch>,
                          w: Result<(ParsedSpec, seq<Mismatch>)>)
    requires i < |ps| && ValidateSpecs(ps[..i], lines, unique, [], xxh) == Ok((done, mm))
    requires w == ValidateSpec(ps[i], lines, unique, mm, xxh)
    ensures ValidateSpecs(ps[..i + 1], lines, unique, [], xxh)
      == if w.Err? then Err(w.error) else Ok((done + [w.value.0], w.value.1))
  {
    assert ps[..i + 1][..i] == ps[..i];
  }

  lemma {:induction false} ValidateSpecsPrefixErr(ps: seq<ParsedSpec>, n: nat, lines: seq<string>,
                                                  unique: map<string, Pos>, mm: seq<Mismatch>, xxh: Hasher)
    requires n <= |ps| && ValidateSpecs(ps[..n], lines, unique, mm, xxh).Err?
    ensures ValidateSpecs(ps, lines, unique, mm, xxh) == ValidateSpecs(ps[..n], lines, unique, mm, xxh)
    decreases |ps| - n
  {
    if n < |ps| {
      assert ps[..n + 1][..n] == ps[..n];
      ValidateSpecsPrefixErr(ps, n + 1, lines, unique, mm, xxh);
    } else {
      assert ps[..n] == ps;
    }
  }

  /** The body of the validate loop for one spec. */
  method ValidateSpecStep(p: ParsedSpec, lines: seq<string>, unique: map<string, Pos>,
                          mismatches: seq<Mismatch>, xxh: Hasher)
    returns (step: Result<(ParsedSpec, seq<Mismatch>)>)
    ensures step == ValidateSpec(p, lines, unique, mismatches, xxh)
  {
    match p {
      case Single(a, dst) =>
        var v := ValidateOrRelocateAnchor(a, lines, unique, mismatches, xxh);
        if v.Err? {
          return Err(v.error);
        }
        step := Ok((Single(v.value.0, dst), v.value.1));
      case Range(start, end, dst) =>
        var v := ValidateOrRelocateAnchor(start, lines, unique, mismatches, xxh);
        if v.Err? {
          return Err(v.error);
        }
        var w := ValidateOrRelocateAnchor(end, lines, unique, v.value.1, xxh);
        if w.Err? {
          return Err(w.error);
        }
        if v.value.0.line > w.value.0.line {
          return Err(StartAfterEnd);
        }
        step := Ok((Range(v.value.0, w.value.0, dst), w.value.1));
      case Insert(after, dst) =>
        var v := ValidateOrRelocateAnchor(after, lines, unique, mismatches, xxh);
        if v.Err? {
          return Err(v.error);
        }
        step := Ok((Insert(v.value.0, dst), v.value.1));
      case ReplaceText(_, _, _) =>
        step := Ok((p, mismatches));
    }
  }

  /** The validate loop of `apply_hashline_edits`, rewriting the parsed
      specs in place. */
  method ValidateAll(parsed: seq<ParsedSpec>, lines: seq<string>, unique: map<string, Pos>, xxh: Hasher)
    returns (r: Result<(seq<ParsedSpec>, seq<Mismatch>)>)
    ensures r == ValidateSpecs(parsed, lines, unique, [], xxh)
  {
    var specs := parsed;
    var mismatches: seq<Mismatch> := [];
    for i := 0 to |parsed|
      invariant |specs| == |parsed|
      invariant specs[i..] == parsed[i..]
      invariant ValidateSpecs(parsed[..i], lines, unique, [], xxh) == Ok((specs[..i], mismatches))
    {
      var spec := specs[i];
      assert spec == parsed[i] by {
        assert specs[i..][0] == parsed[i..][0];
      }
      var step := ValidateSpecStep(spec, lines, unique, mismatches, xxh);
      ValidateSpecsSnoc(parsed, i, lines, unique, xxh, specs[..i], mismatches, step);
      if step.Err? {
        ValidateSpecsPrefixErr(parsed, i + 1, lines, unique, [], xxh);
        return Err(step.error);
      }
      UpdateAt(specs, i, step.value.0, parsed);
      specs := specs[i := step.value.0];
      mismatches := step.value.1;
    }
    assert parsed[..|parsed|] == parsed;
    assert specs[..|parsed|] == specs;
    r := Ok((specs, mismatches));
  }

  /** Writing slot `i` extends the written prefix by one and keeps the
      unwritten suffix. */
  lemma UpdateAt<T>(s: seq<T>, i: nat, x: T, t: seq<T>)
    requires i < |s| == |t| && s[i..] == t[i..]
    ensures s[i := x][..i + 1] == s[..i] + [x]
    ensures s[i := x][i + 1..] == t[i + 1..]
  {
    assert s[i + 1..] == s[i..][1..];
  }

  // ---------------------------------------------------------------------
  // What the validate loop guarantees

  /** Every anchor of the spec names a line carrying its hash, and a range
      runs forwards. */
  predicate SpecResolved(p: ParsedSpec, lines: seq<string>, xxh: Hasher) {
    match p
    case Single(r, _) => Resolved(r, lines, xxh)
    case Range(start, end, _) =>
      Resolved(start, lines, xxh) && Resolved(end, lines, xxh) && start.line <= end.line
    case Insert(after, _) => Resolved(after, lines, xxh)
    case ReplaceText(_, _, _) => true
  }

  /** `q` is `p` with at most its anchors' line numbers changed. */
  predicate SameShape(p: ParsedSpec, q: ParsedSpec) {
    match p
    case Single(r, dst) => q.Single? && q.r.hash == r.hash && q.dst == dst
    case Range(start, end, dst) =>
      q.Range? && q.start.hash == start.hash && q.end.hash == end.hash && q.dst == dst
    case Insert(after, dst) => q.Insert? && q.after.hash == after.hash && q.dst == dst
    case ReplaceText(_, _, _) => q == p
  }

  /** `mm'` is `mm` followed by accurate mismatch records only. */
  predicate ExtendsAccurately(mm: seq<Mismatch>, mm': seq<Mismatch>, lines: seq<string>,
                              unique: map<string, Pos>, xxh: Hasher) {
    |mm| <= |mm'| && mm'[..|mm|] == mm
    && forall i :: |mm| <= i < |mm'| ==> Accurate(mm'[i], lines, unique, xxh)
  }

  lemma ExtendsAccuratelyTrans(a: seq<Mismatch>, b: seq<Mismatch>, c: seq<Mismatch>, lines: seq<string>,
                               unique: map<string, Pos>, xxh: Hasher)
    requires ExtendsAccurately(a, b, lines, unique, xxh) && ExtendsAccurately(b, c, lines, unique, xxh)
    ensures ExtendsAccurately(a, c, lines, unique, xxh)
  {
    assert c[..|a|] == c[..|b|][..|a|];
  }

  lemma ValidateOrRelocateExtends(r: LineRef, lines: seq<string>, unique: map<string, Pos>,
                                  mm: seq<Mismatch>, xxh: Hasher)
    requires unique == UniqueLines(LineHashes(lines, xxh))
    requires ValidateOrRelocate(r, lines, unique, mm, xxh).Ok?
    ensures ExtendsAccurately(mm, ValidateOrRelocate(r, lines, unique, mm, xxh).value.1, lines, unique, xxh)
  {
    ValidateOrRelocateRecords(r, lines, unique, mm, xxh);
  }

  /** One spec: the mismatch list only grows, by accurate records; and a
      spec that adds none comes out resolved and of the same shape. */
  lemma ValidateSpecSpec(p: ParsedSpec, lines: seq<string>, unique: map<string, Pos>,
                         mm: seq<Mismatch>, xxh: Hasher)
    requires unique == UniqueLines(LineHashes(lines, xxh))
    requires ValidateSpec(p, lines, unique, mm, xxh).Ok?
    ensures var v := ValidateSpec(p, lines, unique, mm, xxh).value;
      ExtendsAccurately(mm, v.1, lines, unique, xxh) && SameShape(p, v.0)
      && (v.1 == mm ==> SpecResolved(v.0, lines, xxh))
  {
    match p
    case Single(r, _) =>
      ValidateOrRelocateExtends(r, lines, unique, mm, xxh);
      ValidateOrRelocateResolves(r, lines, unique, mm, xxh);
    case Range(start, end, dst) =>
      ValidateRangeSpec(start, end, dst, lines, unique, mm, xxh);
    case Insert(after, _) =>
      ValidateOrRelocateExtends(after, lines, unique, mm, xxh);
      ValidateOrRelocateResolves(after, lines, unique, mm, xxh);
    case ReplaceText(_, _, _) =>
  }

  /** Validation keeps a spec's kind, hashes and texts. */
  lemma ValidateSpecShape(p: ParsedSpec, lines: seq<string>, unique: map<string, Pos>,
                          mm: seq<Mismatch>, xxh: Hasher)
    requires ValidateSpec(p, lines, unique, mm, xxh).Ok?
    ensures SameShape(p, ValidateSpec(p, lines, unique, mm, xxh).value.0)
  {
  }

  /** A range: both anchors go through `validate_or_relocate`, the second
      one after the first. */
  lemma ValidateRangeSpec(start: LineRef, end: LineRef, dst: string, lines: seq<string>,
                          unique: map<string, Pos>, mm: seq<Mismatch>, xxh: Hasher)
    requires unique == UniqueLines(LineHashes(lines, xxh))
    requires ValidateSpec(Range(start, end, dst), lines, unique, mm, xxh).Ok?
    ensures var v := ValidateSpec(Range(start, end, dst), lines, unique, mm, xxh).value;
      ExtendsAccurately(mm, v.1, lines, unique, xxh) && SameShape(Range(start, end, dst), v.0)
      && (v.1 == mm ==> SpecResolved(v.0, lines, xxh))
  {
    var v := ValidateOrRelocate(start, lines, unique, mm, xxh).value;
    ValidateOrRelocateExtends(start, lines, unique, mm, xxh);
    ValidateOrRelocateResolves(start, lines, unique, mm, xxh);
    var w := ValidateOrRelocate(end, lines, unique, v.1, xxh).value;
    ValidateOrRelocateExtends(end, lines, unique, v.1, xxh);
    ValidateOrRelocateResolves(end, lines, unique, v.1, xxh);
    ExtendsAccuratelyTrans(mm, v.1, w.1, lines, unique, xxh);
    var res := ValidateSpec(Range(start, end, dst), lines, unique, mm, xxh).value;
    assert res == (Range(v.0, w.0, dst), w.1);
    if w.1 == mm {
      assert |v.1| == |mm|;
      assert v.1 == w.1[..|v.1|];
    }
  }

  /** The whole validate loop: the mismatch list only grows, by accurate
      records; when it stays as it was, every spec comes out resolved and of
      the same shape as it went in. */
  lemma ValidateSpecsSpec(ps: seq<ParsedSpec>, lines: seq<string>, unique: map<string, Pos>,
                          mm: seq<Mismatch>, xxh: Hasher)
    requires unique == UniqueLines(LineHashes(lines, xxh))
    requires ValidateSpecs(ps, lines, unique, mm, xxh).Ok?
    ensures var v := ValidateSpecs(ps, lines, unique, mm, xxh).value;
      ExtendsAccurately(mm, v.1, lines, unique, xxh)
      && |v.0| == |ps|
      && (forall i :: 0 <= i < |ps| ==> SameShape(ps[i], v.0[i]))
      && (v.1 == mm ==> forall i :: 0 <= i < |ps| ==> SpecResolved(v.0[i], lines, xxh))
  {
    ValidateSpecsExtends(ps, lines, unique, mm, xxh);
    ValidateSpecsShape(ps, lines, unique, mm, xxh);
    ValidateSpecsResolved(ps, lines, unique, mm, xxh);
  }

  lemma {:induction false} ValidateSpecsExtends(ps: seq<ParsedSpec>, lines: seq<string>, unique: map<string, Pos>,
                                                mm: seq<Mismatch>, xxh: Hasher)
    requires unique == UniqueLines(LineHashes(lines, xxh))
    requires ValidateSpecs(ps, lines, unique, mm, xxh).Ok?
    ensures ExtendsAccurately(mm, ValidateSpecs(ps, lines, unique, mm, xxh).value.1, lines, unique, xxh)
  {
    if ps != [] {
      var init := ps[..|ps| - 1];
      ValidateSpecsExtends(init, lines, unique, mm, xxh);
      var v := ValidateSpecs(init, lines, unique, mm, xxh).value;
      ValidateSpecSpec(ps[|ps| - 1], lines, unique, v.1, xxh);
      var w := ValidateSpec(ps[|ps| - 1], lines, unique, v.1, xxh).value;
      ExtendsAccuratelyTrans(mm, v.1, w.1, lines, unique, xxh);
    }
  }

  lemma {:induction false} ValidateSpecsShape(ps: seq<ParsedSpec>, lines: seq<string>, unique: map<string, Pos>,
                                              mm: seq<Mismatch>, xxh: Hasher)
    requires unique == UniqueLines(LineHashes(lines, xxh))
    requires ValidateSpecs(ps, lines, unique, mm, xxh).Ok?
    ensures var v := ValidateSpecs(ps, lines, unique, mm, xxh).value;
      |v.0| == |ps| && forall i :: 0 <= i < |ps| ==> SameShape(ps[i], v.0[i])
  {
    if ps != [] {
      var init := ps[..|ps| - 1];
      var last := ps[|ps| - 1];
      ValidateSpecsShape(init, lines, unique, mm, xxh);
      var v := ValidateSpecs(init, lines, unique, mm, xxh).value;
      ValidateSpecShape(last, lines, unique, v.1, xxh);
      var w := ValidateSpec(last, lines, unique, v.1, xxh).value;
      var out := v.0 + [w.0];
      assert ValidateSpecs(ps, lines, unique, mm, xxh).value.0 == out;
      forall i | 0 <= i < |ps| ensures SameShape(ps[i], out[i]) {
        if i < |init| {
          assert ps[i] == init[i] && out[i] == v.0[i];
        }
      }
    }
  }

  lemma {:induction false} ValidateSpecsResolved(ps: seq<ParsedSpec>, lines: seq<string>, unique: map<string, Pos>,
                                                 mm: seq<Mismatch>, xxh: Hasher)
    requires unique == UniqueLines(LineHashes(lines, xxh))
    requires ValidateSpecs(ps, lines, unique, mm, xxh).Ok?
    ensures var v := ValidateSpecs(ps, lines, unique, mm, xxh).value;
      v.1 == mm ==> forall i :: 0 <= i < |v.0| ==> SpecResolved(v.0[i], lines, xxh)
  {
    if ps != [] {
      var init := ps[..|ps| - 1];
      var last := ps[|ps| - 1];
      ValidateSpecsResolved(init, lines, unique, mm, xxh);
      ValidateSpecsExtends(init, lines, unique, mm, xxh);
      var v := ValidateSpecs(init, lines, unique, mm, xxh).value;
      ValidateSpecSpec(last, lines, unique, v.1, xxh);
      var w := ValidateSpec(last, lines, unique, v.1, xxh).value;
      var out := v.0 + [w.0];
      assert ValidateSpecs(ps, lines, unique, mm, xxh).value == (out, w.1);
      if w.1 == mm {
        assert |v.1| == |mm|;
        assert v.1 == mm by {
          assert v.1 == v.1[..|mm|];
        }
        assert forall i :: 0 <= i < |v.0| ==> out[i] == v.0[i];
      }
    }
  }
}
