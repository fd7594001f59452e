/** `apply_hashline_edits`: build the unique-fingerprint map, parse every
    edit, validate or relocate every anchor, refuse the batch if any anchor
    is stale, then apply the specs bottom-up. */
module Engine {
  import opened Results
  import opened Strings
  import opened Fingerprint
  import opened Anchors
  import opened Uniqueness
  import opened Specs
  import opened Relocation
  import opened Ordering
  import opened Splicing
  import opened Diagnostics

  /** The whole engine as one function of the lines and the edits. */
  function ApplyEdits(lines: seq<string>, edits: seq<Edit>, xxh: Hasher): Result<seq<string>> {
    if edits == [] then Ok(lines)
    else
      var unique := UniqueLines(LineHashes(lines, xxh));
      var parsed :- ParseEdits(edits);
      var v :- ValidateSpecs(parsed, lines, unique, [], xxh);
      if v.1 != [] then Err(StaleAnchors(v.1, MismatchMessage(lines, v.1)))
      else ApplySpecs(lines, SortSpecs(v.0))
  }

  /** `apply_hashline_edits`, step by step: the two map-building loops,
      the parse loop, the validate loop, the refusal, the sort and the
      apply loop. */
  method ApplyHashlineEdits(lines: seq<string>, edits: seq<Edit>, xxh: Hasher)
    returns (r: Result<seq<string>>)
    ensures r == ApplyEdits(lines, edits, xxh)
    ensures edits == [] ==> r == Ok(lines)
  {
    if |edits| == 0 {
      return Ok(lines);
    }
    var unique := BuildUnique(lines, xxh);
    var parsed := ParseAll(edits);
    if parsed.Err? {
      return Err(parsed.error);
    }
    var validated := ValidateAll(parsed.value, lines, unique, xxh);
    if validated.Err? {
      return Err(validated.error);
    }
    var specs, mismatches := validated.value.0, validated.value.1;
    if mismatches != [] {
      var message := RenderMismatchError(lines, mismatches);
      return Err(StaleAnchors(mismatches, message));
    }
    var sorted := SortSpecs(specs);
    r := ApplyAll(lines, sorted);
  }

  // ---------------------------------------------------------------------
  // All or nothing

  /** A successful batch had every edit parse, to a spec carrying the
      edit's own anchors and texts, and every validated spec resolved
      against the original lines with no stale anchor; the result is those
      specs applied in sorted order. */
  lemma ApplyEditsSucceeds(lines: seq<string>, edits: seq<Edit>, xxh: Hasher)
    requires edits != [] && ApplyEdits(lines, edits, xxh).Ok?
    ensures ParseEdits(edits).Ok? && |ParseEdits(edits).value| == |edits|
    ensures forall i :: 0 <= i < |edits| ==>
      TextPresent(edits[i]) && AnchorsParse(edits[i], ParseEdits(edits).value[i])
    ensures var unique := UniqueLines(LineHashes(lines, xxh));
      var ps := ParseEdits(edits).value;
      var v := ValidateSpecs(ps, lines, unique, [], xxh);
      v.Ok? && v.value.1 == [] && |v.value.0| == |edits|
      && (forall i :: 0 <= i < |edits| ==> SameShape(ps[i], v.value.0[i]))
      && (forall i :: 0 <= i < |edits| ==> SpecResolved(v.value.0[i], lines, xxh))
      && ApplyEdits(lines, edits, xxh) == ApplySpecs(lines, SortSpecs(v.value.0))
  {
    var unique := UniqueLines(LineHashes(lines, xxh));
    ParseEditsSpec(edits);
    var ps := ParseEdits(edits).value;
    forall i | 0 <= i < |edits|
      ensures TextPresent(edits[i]) && AnchorsParse(edits[i], ps[i])
    {
      ParseEditSpec(edits[i]);
    }
    ValidateSpecsSpec(ps, lines, unique, [], xxh);
  }

  /** An insertion with no text, or a text replacement with no old text,
      refuses the whole batch. */
  lemma ApplyEditsRefusesEmptyText(lines: seq<string>, edits: seq<Edit>, xxh: Hasher, k: nat)
    requires k < |edits| && !TextPresent(edits[k])
    ensures ApplyEdits(lines, edits, xxh).Err?
  {
    ParseEditSpec(edits[k]);
    ParseEditsSpec(edits);
  }

  /** When the validate loop records stale anchors the batch is refused
      with those records (each one accurate about the original lines) and
      the message listing them. */
  lemma ApplyEditsRefusesStale(lines: seq<string>, edits: seq<Edit>, xxh: Hasher)
    requires edits != [] && ParseEdits(edits).Ok?
    requires var unique := UniqueLines(LineHashes(lines, xxh));
      var v := ValidateSpecs(ParseEdits(edits).value, lines, unique, [], xxh);
      v.Ok? && v.value.1 != []
    ensures var unique := UniqueLines(LineHashes(lines, xxh));
      var mm := ValidateSpecs(ParseEdits(edits).value, lines, unique, [], xxh).value.1;
      ApplyEdits(lines, edits, xxh) == Err(StaleAnchors(mm, MismatchMessage(lines, mm)))
      && forall i :: 0 <= i < |mm| ==> Accurate(mm[i], lines, unique, xxh)
  {
    var unique := UniqueLines(LineHashes(lines, xxh));
    ValidateSpecsSpec(ParseEdits(edits).value, lines, unique, [], xxh);
  }

  // ---------------------------------------------------------------------
  // End to end

  /** A batch that parses and validates with no stale anchor is its
      validated specs applied in sorted order. */
  lemma ApplyEditsValidated(lines: seq<string>, edits: seq<Edit>, xxh: Hasher,
                            ps: seq<ParsedSpec>, vs: seq<ParsedSpec>)
    requires edits != [] && ParseEdits(edits) == Ok(ps)
    requires ValidateSpecs(ps, lines, UniqueLines(LineHashes(lines, xxh)), [], xxh) == Ok((vs, []))
    ensures ApplyEdits(lines, edits, xxh) == ApplySpecs(lines, SortSpecs(vs))
  {
  }

  lemma ParseFreshSetLine(r: LineRef, t: string)
    requires ParseLineRef(FormatLineRef(r)) == Ok(r)
    ensures ParseEdits([SetLine(FormatLineRef(r), t)]) == Ok([Single(r, t)])
  {
    var e := SetLine(FormatLineRef(r), t);
    ParseEditSpec(e);
    assert ParseEdit(e) == Ok(Single(r, t));
    MapResultSingleton(ParseEdit, e);
  }

  /** Setting a line through the anchor the read command prints for it
      (its number and its current fingerprint) replaces exactly that line. */
  lemma SetLineByFreshAnchor(lines: seq<string>, r: LineRef, t: string, xxh: Hasher)
    requires r.line <= |lines| && r.line < UsizeBound && r.hash == LineHash(lines[r.line - 1], xxh)
    ensures ApplyEdits(lines, [SetLine(FormatLineRef(r), t)], xxh)
      == Ok(lines[..r.line - 1] + SplitDstLines(t) + lines[r.line..])
  {
    var p := Single(r, t);
    var unique := UniqueLines(LineHashes(lines, xxh));
    LineHashAnchorRoundTrip(r.line, lines[r.line - 1], xxh);
    ParseFreshSetLine(r, t);
    ValidateOrRelocateKeeps(r, lines, unique, [], xxh);
    ValidateSingleton(p, p, lines, unique, xxh);
    ApplyEditsValidated(lines, [SetLine(FormatLineRef(r), t)], xxh, [p], [p]);
    ApplySingle(lines, p);
    SetLineSplice(lines, r, t);
  }

  /** Setting a line through an anchor whose line no longer carries its
      hash, when exactly one line of the file does, edits that line. */
  lemma SetLineRelocated(lines: seq<string>, r: LineRef, t: string, xxh: Hasher, j: Pos)
    requires r.line <= |lines| && r.line < UsizeBound
    requires LineHash(lines[r.line - 1], xxh) != r.hash
    requires OnlyAt(LineHashes(lines, xxh), r.hash, j - 1)
    ensures ApplyEdits(lines, [SetLine(FormatLineRef(r), t)], xxh)
      == Ok(lines[..j - 1] + SplitDstLines(t) + lines[j..])
  {
    var hs := LineHashes(lines, xxh);
    var unique := UniqueLines(hs);
    var moved := LineRef(j, r.hash);
    assert !Resolved(r, lines, xxh);
    ValidateOrRelocateMoves(r, lines, unique, [], xxh, j);
    var at: nat := j - 1;
    assert r.hash == LineHash(lines[at], xxh);
    LineHashAnchorRoundTrip(r.line, lines[at], xxh);
    ParseFreshSetLine(r, t);
    ValidateSingleton(Single(r, t), Single(moved, t), lines, unique, xxh);
    ApplyEditsValidated(lines, [SetLine(FormatLineRef(r), t)], xxh, [Single(r, t)], [Single(moved, t)]);
    ApplySingle(lines, Single(moved, t));
    SetLineSplice(lines, moved, t);
  }

  /** Two line replacements through fresh anchors at different lines give
      the same file whichever order the edits are declared in: both
      splices of the original lines, since the sort applies the higher
      line first and that splice does not move the lower line. */
  lemma SetLinesCommute(lines: seq<string>, lo: LineRef, dlo: string, hi: LineRef, dhi: string, xxh: Hasher)
    requires lo.line < hi.line <= |lines| && hi.line < UsizeBound
    requires lo.hash == LineHash(lines[lo.line - 1], xxh) && hi.hash == LineHash(lines[hi.line - 1], xxh)
    ensures var elo := SetLine(FormatLineRef(lo), dlo);
      var ehi := SetLine(FormatLineRef(hi), dhi);
      ApplyEdits(lines, [elo, ehi], xxh) == ApplyEdits(lines, [ehi, elo], xxh)
      == Ok(lines[..lo.line - 1] + SplitDstLines(dlo) + lines[lo.line..hi.line - 1]
            + SplitDstLines(dhi) + lines[hi.line..])
  {
    var elo := SetLine(FormatLineRef(lo), dlo);
    var ehi := SetLine(FormatLineRef(hi), dhi);
    var plo, phi := Single(lo, dlo), Single(hi, dhi);
    var unique := UniqueLines(LineHashes(lines, xxh));
    FreshSingleValidates(lines, lo, dlo, unique, xxh);
    FreshSingleValidates(lines, hi, dhi, unique, xxh);
    ParseFreshPair(lo, dlo, hi, dhi);
    ParseFreshPair(hi, dhi, lo, dlo);
    ValidatePair(plo, phi, lines, unique, xxh);
    ValidatePair(phi, plo, lines, unique, xxh);
    ApplyEditsValidated(lines, [elo, ehi], xxh, [plo, phi], [plo, phi]);
    ApplyEditsValidated(lines, [ehi, elo], xxh, [phi, plo], [phi, plo]);
    SortPair(plo, phi);
    SortPair(phi, plo);
    BottomUpSetLines(lines, hi, dhi, lo, dlo);
  }

  /** A fresh anchor validates in place, with nothing recorded. */
  lemma FreshSingleValidates(lines: seq<string>, r: LineRef, t: string, unique: map<string, Pos>, xxh: Hasher)
    requires unique == UniqueLines(LineHashes(lines, xxh))
    requires r.line <= |lines| && r.line < UsizeBound && r.hash == LineHash(lines[r.line - 1], xxh)
    ensures ParseLineRef(FormatLineRef(r)) == Ok(r)
    ensures ValidateSpec(Single(r, t), lines, unique, [], xxh) == Ok((Single(r, t), []))
  {
    LineHashAnchorRoundTrip(r.line, lines[r.line - 1], xxh);
    ValidateOrRelocateKeeps(r, lines, unique, [], xxh);
  }

  lemma ParseFreshPair(r1: LineRef, t1: string, r2: LineRef, t2: string)
    requires ParseLineRef(FormatLineRef(r1)) == Ok(r1) && ParseLineRef(FormatLineRef(r2)) == Ok(r2)
    ensures ParseEdits([SetLine(FormatLineRef(r1), t1), SetLine(FormatLineRef(r2), t2)])
      == Ok([Single(r1, t1), Single(r2, t2)])
  {
    var e1, e2 := SetLine(FormatLineRef(r1), t1), SetLine(FormatLineRef(r2), t2);
    ParseEditSpec(e1);
    ParseEditSpec(e2);
    assert ParseEdit(e1) == Ok(Single(r1, t1));
    assert ParseEdit(e2) == Ok(Single(r2, t2));
    MapResultPair(ParseEdit, e1, e2);
  }

  lemma ValidatePair(p: ParsedSpec, q: ParsedSpec, lines: seq<string>, unique: map<string, Pos>, xxh: Hasher)
    requires ValidateSpec(p, lines, unique, [], xxh) == Ok((p, []))
    requires ValidateSpec(q, lines, unique, [], xxh) == Ok((q, []))
    ensures ValidateSpecs([p, q], lines, unique, [], xxh) == Ok(([p, q], []))
  {
    ValidateSingleton(p, p, lines, unique, xxh);
    assert [p, q][..1] == [p];
    ValidateSpecsSnoc([p, q], 1, lines, unique, xxh, [p], [], ValidateSpec(q, lines, unique, [], xxh));
    assert [p, q][..2] == [p, q];
    assert [p] + [q] == [p, q];
  }

  lemma ValidateSingleton(p: ParsedSpec, q: ParsedSpec, lines: seq<string>, unique: map<string, Pos>, xxh: Hasher)
    requires ValidateSpec(p, lines, unique, [], xxh) == Ok((q, []))
    ensures ValidateSpecs([p], lines, unique, [], xxh) == Ok(([q], []))
  {
    assert [p][..0] == [];
    assert ValidateSpecs([p][..0], lines, unique, [], xxh) == Ok(([], []));
    assert [] + [q] == [q];
  }

  lemma ApplySingle(lines: seq<string>, p: ParsedSpec)
    ensures ApplySpecs(lines, SortSpecs([p])) == ApplySpec(lines, p)
  {
    assert SortSpecs([p]) == [p] by {
      assert [p][..0] == [];
    }
    assert [p][1..] == [];
  }
}
