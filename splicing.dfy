/** The apply loop of `apply_hashline_edits`: each validated spec splices
    the line sequence (or rewrites the joined text), in the sorted order. */
module Splicing {
  import opened Results
  import opened Strings
  import opened Anchors
  import opened Specs

  /** `lines.join("\n")`. */
  function JoinLines(lines: seq<string>): string {
    Join(lines, '\n')
  }

  /** One iteration of the apply loop. An anchor is checked against the
      lines as they stand after the earlier splices. */
  function ApplySpec(lines: seq<string>, p: ParsedSpec): Result<seq<string>> {
    match p
    case Single(r, dst) =>
      var at: nat := r.line - 1;
      if at >= |lines| then Err(LineOutOfRange(r.line, |lines|))
      else Ok(lines[..at] + SplitDstLines(dst) + lines[at + 1..])
    case Range(start, end, dst) =>
      var s: nat := start.line - 1;
      var e: nat := end.line - 1;
      if s >= |lines| || e >= |lines| then Err(RangeOutOfBounds(|lines|))
      else if s > e then Err(InvalidRange)
      else Ok(lines[..s] + SplitDstLines(dst) + lines[e + 1..])
    case Insert(after, dst) =>
      if after.line > |lines| then Err(LineOutOfRange(after.line, |lines|))
      else Ok(lines[..after.line] + SplitDstLines(dst) + lines[after.line..])
    case ReplaceText(o, n, all) =>
      ReplaceInText(lines, o, n, all)
  }

  /** `s.replacen(p, t, 1)` when `p` occurs: the leftmost occurrence
      replaced; `None` when it does not. */
  function ReplaceFirst(s: string, p: string, t: string): Option<string> {
    match Find(s, p)
    case None => None
    case Some(pos) => Some(s[..pos] + t + s[pos + |p|..])
  }

  /** The `ReplaceText` arm: a replacement on the joined text, split into
      lines again. */
  function ReplaceInText(lines: seq<string>, o: string, n: string, all: bool): Result<seq<string>> {
    var joined := JoinLines(lines);
    if all then Ok(Split(ReplaceAll(joined, o, n), '\n'))
    else
      var replaced := ReplaceFirst(joined, o, n);
      if replaced.None? then Err(OldTextNotFound) else Ok(Split(replaced.value, '\n'))
  }

  /** The apply loop: every spec in order, the first error aborting. */
  function ApplySpecs(lines: seq<string>, ps: seq<ParsedSpec>): Result<seq<string>>
    decreases |ps|
  {
    if ps == [] then Ok(lines)
    else
      var next :- ApplySpec(lines, ps[0]);
      ApplySpecs(next, ps[1..])
  }

  // ---------------------------------------------------------------------
  // What one splice does

  /** `out` is `lines` with `lines[lo..hi]` replaced by `ins`: everything
      before the span and after it is unchanged, and the length changes by
      `|ins| - (hi - lo)`. */
  predicate Spliced(lines: seq<string>, lo: nat, hi: nat, ins: seq<string>, out: seq<string>) {
    lo <= hi <= |lines|
    && |out| == |lines| - (hi - lo) + |ins|
    && (forall i :: 0 <= i < lo ==> out[i] == lines[i])
    && (forall i :: 0 <= i < |ins| ==> out[lo + i] == ins[i])
    && (forall i :: hi <= i < |lines| ==> out[i - (hi - lo) + |ins|] == lines[i])
  }

  lemma SpliceIsSpliced(lines: seq<string>, lo: nat, hi: nat, ins: seq<string>)
    requires lo <= hi <= |lines|
    ensures Spliced(lines, lo, hi, ins, lines[..lo] + ins + lines[hi..])
  {
  }

  /** `set_line`: fails exactly when the line is past the end; otherwise
      the one line at `line - 1` becomes the lines of the new text (none,
      for an empty text: the line is deleted). */
  lemma SetLineSplice(lines: seq<string>, r: LineRef, dst: string)
    ensures ApplySpec(lines, Single(r, dst)).Ok? <==> r.line <= |lines|
    ensures ApplySpec(lines, Single(r, dst)).Err? ==>
      ApplySpec(lines, Single(r, dst)).error == LineOutOfRange(r.line, |lines|)
    ensures ApplySpec(lines, Single(r, dst)).Ok? ==>
      Spliced(lines, r.line - 1, r.line, SplitDstLines(dst), ApplySpec(lines, Single(r, dst)).value)
  {
    if r.line <= |lines| {
      SpliceIsSpliced(lines, r.line - 1, r.line, SplitDstLines(dst));
    }
  }

  /** `replace_lines`: fails when either end is past the end of the lines,
      or when the start is after the end; otherwise lines `start..end`
      (inclusive, 1-indexed) become the lines of the new text. */
  lemma ReplaceLinesSplice(lines: seq<string>, start: LineRef, end: LineRef, dst: string)
    ensures ApplySpec(lines, Range(start, end, dst)).Ok? <==> start.line <= end.line <= |lines|
    ensures start.line > |lines| || end.line > |lines| ==>
      ApplySpec(lines, Range(start, end, dst)) == Err(RangeOutOfBounds(|lines|))
    ensures start.line <= |lines| && end.line <= |lines| && start.line > end.line ==>
      ApplySpec(lines, Range(start, end, dst)) == Err(InvalidRange)
    ensures ApplySpec(lines, Range(start, end, dst)).Ok? ==>
      Spliced(lines, start.line - 1, end.line, SplitDstLines(dst), ApplySpec(lines, Range(start, end, dst)).value)
  {
    if start.line <= end.line <= |lines| {
      SpliceIsSpliced(lines, start.line - 1, end.line, SplitDstLines(dst));
    }
  }

  /** `insert_after`: fails exactly when the line is past the end;
      otherwise the new lines go in right after it, replacing nothing. */
  lemma InsertAfterSplice(lines: seq<string>, after: LineRef, dst: string)
    ensures ApplySpec(lines, Insert(after, dst)).Ok? <==> after.line <= |lines|
    ensures ApplySpec(lines, Insert(after, dst)).Ok? ==>
      Spliced(lines, after.line, after.line, SplitDstLines(dst), ApplySpec(lines, Insert(after, dst)).value)
  {
    if after.line <= |lines| {
      SpliceIsSpliced(lines, after.line, after.line, SplitDstLines(dst));
    }
  }

  /** Setting a line to its own (non-empty) text changes nothing; setting
      it to the empty text deletes it. */
  lemma SetLineOwnText(lines: seq<string>, r: LineRef)
    requires r.line <= |lines| && '\n' !in lines[r.line - 1]
    ensures lines[r.line - 1] != "" ==> ApplySpec(lines, Single(r, lines[r.line - 1])) == Ok(lines)
    ensures ApplySpec(lines, Single(r, "")) == Ok(lines[..r.line - 1] + lines[r.line..])
  {
    var at: nat := r.line - 1;
    if lines[at] != "" {
      SplitNoSeparator(lines[at], '\n');
      assert SplitDstLines(lines[at]) == [lines[at]];
      assert lines[..at] + [lines[at]] + lines[at + 1..] == lines;
    }
    assert lines[..at] + [] + lines[at + 1..] == lines[..at] + lines[at + 1..];
  }

  // ---------------------------------------------------------------------
  // Text replacement

  /** `ReplaceFirst` fails exactly when `p` does not occur; otherwise it
      replaces the leftmost occurrence. */
  lemma ReplaceFirstSpec(s: string, p: string, t: string)
    ensures ReplaceFirst(s, p, t).Some? <==> Contains(s, p)
    ensures ReplaceFirst(s, p, t).Some? ==>
      var pos := Find(s, p).value;
      MatchAt(s, p, pos)
      && (forall k: nat :: k < pos ==> !MatchAt(s, p, k))
      && ReplaceFirst(s, p, t).value == s[..pos] + t + s[pos + |p|..]
  {
    FindLeftmost(s, p);
  }

  /** `replace` in first mode fails exactly when `old_text` does not occur
      in the joined lines, and then with `OldTextNotFound`; otherwise the
      result joins back to the text with the leftmost occurrence replaced. */
  lemma ReplaceFirstMode(lines: seq<string>, o: string, n: string)
    ensures ReplaceInText(lines, o, n, false).Ok? <==> Contains(JoinLines(lines), o)
    ensures ReplaceInText(lines, o, n, false).Err? ==>
      ReplaceInText(lines, o, n, false).error == OldTextNotFound
    ensures ReplaceInText(lines, o, n, false).Ok? ==>
      JoinLines(ReplaceInText(lines, o, n, false).value) == ReplaceFirst(JoinLines(lines), o, n).value
  {
    var joined := JoinLines(lines);
    ReplaceFirstSpec(joined, o, n);
    if Contains(joined, o) {
      JoinSplit(ReplaceFirst(joined, o, n).value, '\n');
    }
  }

  /** `replace` in `all` mode never fails: the result joins back to the
      text with every occurrence replaced, left to right. */
  lemma ReplaceAllModeSpec(lines: seq<string>, o: string, n: string)
    ensures ReplaceInText(lines, o, n, true).Ok?
    ensures JoinLines(ReplaceInText(lines, o, n, true).value) == ReplaceAll(JoinLines(lines), o, n)
  {
    JoinSplit(ReplaceAll(JoinLines(lines), o, n), '\n');
  }

  /** With no occurrence, `all` mode gives the lines back, except that an
      empty file comes back as one empty line. */
  lemma ReplaceAllModeNoMatch(lines: seq<string>, o: string, n: string)
    requires |o| > 0 && !Contains(JoinLines(lines), o)
    requires forall i :: 0 <= i < |lines| ==> '\n' !in lines[i]
    ensures ReplaceInText(lines, o, n, true) == Ok(if lines == [] then [""] else lines)
  {
    ReplaceAllNoMatch(JoinLines(lines), o, n);
    if lines != [] {
      SplitJoin(lines, '\n');
    }
  }

  /** A text replacement on no lines at all yields one empty line in
      `all` mode, and fails in first mode. */
  lemma ReplaceOnEmpty(o: string, n: string)
    requires |o| > 0
    ensures ApplySpec([], ReplaceText(o, n, true)) == Ok([""])
    ensures ApplySpec([], ReplaceText(o, n, false)) == Err(OldTextNotFound)
  {
    assert JoinLines([]) == "";
    ReplaceAllNoMatch("", o, n);
  }

  /** No line holds a newline. */
  predicate NoNewlines(lines: seq<string>) {
    forall i :: 0 <= i < |lines| ==> '\n' !in lines[i]
  }

  lemma SplicedNoNewlines(lines: seq<string>, lo: nat, hi: nat, ins: seq<string>, out: seq<string>)
    requires Spliced(lines, lo, hi, ins, out) && NoNewlines(lines) && NoNewlines(ins)
    ensures NoNewlines(out)
  {
    forall i | 0 <= i < |out| ensures '\n' !in out[i] {
      if i < lo {
      } else if i < lo + |ins| {
        assert out[lo + (i - lo)] == ins[i - lo];
      } else {
        var j := i + (hi - lo) - |ins|;
        assert out[j - (hi - lo) + |ins|] == lines[j];
      }
    }
  }

  /** One spec applied to lines without a newline leaves none. */
  lemma ApplySpecNoNewlines(lines: seq<string>, p: ParsedSpec)
    requires NoNewlines(lines) && ApplySpec(lines, p).Ok?
    ensures NoNewlines(ApplySpec(lines, p).value)
  {
    match p {
      case Single(r, dst) => SetLineNoNewlines(lines, r, dst);
      case Range(start, end, dst) => ReplaceLinesNoNewlines(lines, start, end, dst);
      case Insert(after, dst) => InsertAfterNoNewlines(lines, after, dst);
      case ReplaceText(_, _, _) =>
    }
  }

  lemma SetLineNoNewlines(lines: seq<string>, r: LineRef, dst: string)
    requires NoNewlines(lines) && r.line <= |lines|
    ensures ApplySpec(lines, Single(r, dst)).Ok? && NoNewlines(ApplySpec(lines, Single(r, dst)).value)
  {
    SetLineSplice(lines, r, dst);
    var lo: nat := r.line - 1;
    SplicedNoNewlines(lines, lo, r.line, SplitDstLines(dst), ApplySpec(lines, Single(r, dst)).value);
  }

  lemma ReplaceLinesNoNewlines(lines: seq<string>, start: LineRef, end: LineRef, dst: string)
    requires NoNewlines(lines) && start.line <= end.line <= |lines|
    ensures ApplySpec(lines, Range(start, end, dst)).Ok?
      && NoNewlines(ApplySpec(lines, Range(start, end, dst)).value)
  {
    ReplaceLinesSplice(lines, start, end, dst);
    var lo: nat := start.line - 1;
    SplicedNoNewlines(lines, lo, end.line, SplitDstLines(dst), ApplySpec(lines, Range(start, end, dst)).value);
  }

  lemma InsertAfterNoNewlines(lines: seq<string>, after: LineRef, dst: string)
    requires NoNewlines(lines) && after.line <= |lines|
    ensures ApplySpec(lines, Insert(after, dst)).Ok? && NoNewlines(ApplySpec(lines, Insert(after, dst)).value)
  {
    InsertAfterSplice(lines, after, dst);
    SplicedNoNewlines(lines, after.line, after.line, SplitDstLines(dst), ApplySpec(lines, Insert(after, dst)).value);
  }

  /** Whatever the specs, the lines that come out hold no newline. */
  lemma {:induction false} ApplySpecsNoNewlines(lines: seq<string>, ps: seq<ParsedSpec>)
    requires NoNewlines(lines) && ApplySpecs(lines, ps).Ok?
    ensures NoNewlines(ApplySpecs(lines, ps).value)
    decreases |ps|
  {
    if ps != [] {
      ApplySpecNoNewlines(lines, ps[0]);
      ApplySpecsNoNewlines(ApplySpec(lines, ps[0]).value, ps[1..]);
    }
  }

  // ---------------------------------------------------------------------
  // Bottom-up application

  /** Two specs in a row: the second sees the first one's result. */
  lemma ApplySpecsPair(lines: seq<string>, p: ParsedSpec, q: ParsedSpec)
    requires ApplySpec(lines, p).Ok?
    ensures ApplySpecs(lines, [p, q]) == ApplySpec(ApplySpec(lines, p).value, q)
  {
    var next := ApplySpec(lines, p).value;
    assert [p, q][1..] == [q];
    assert ApplySpecs(lines, [p, q]) == ApplySpecs(next, [q]);
    assert [q][1..] == [];
    if ApplySpec(next, q).Ok? {
      assert ApplySpecs(next, [q]) == ApplySpecs(ApplySpec(next, q).value, []);
    }
  }

  /** Two line replacements applied bottom-up, the higher line first (as
      the sort orders them), give both splices of the original lines: the
      first splice does not move the line the second one names. */
  lemma BottomUpSetLines(lines: seq<string>, hi: LineRef, dhi: string, lo: LineRef, dlo: string)
    requires lo.line < hi.line <= |lines|
    ensures ApplySpecs(lines, [Single(hi, dhi), Single(lo, dlo)])
      == Ok(lines[..lo.line - 1] + SplitDstLines(dlo) + lines[lo.line..hi.line - 1]
            + SplitDstLines(dhi) + lines[hi.line..])
  {
    var a: nat := hi.line - 1;
    var b: nat := lo.line - 1;
    var x := SplitDstLines(dhi);
    var y := SplitDstLines(dlo);
    var first := lines[..a] + x + lines[a + 1..];
    assert ApplySpec(lines, Single(hi, dhi)) == Ok(first);
    ApplySpecsPair(lines, Single(hi, dhi), Single(lo, dlo));
    var second := first[..b] + y + first[b + 1..];
    assert ApplySpec(first, Single(lo, dlo)) == Ok(second);
    SpliceBelow(lines, a, x, b, y);
    assert second == lines[..b] + y + lines[b + 1..a] + x + lines[a + 1..];
    assert lines[..b] == lines[..lo.line - 1] && lines[b + 1..a] == lines[lo.line..hi.line - 1]
      && lines[a + 1..] == lines[hi.line..];
  }

  /** Splicing at `b` below an earlier splice at `a` is splicing both
      into the original lines. */
  lemma SpliceBelow(lines: seq<string>, a: nat, x: seq<string>, b: nat, y: seq<string>)
    requires b < a < |lines|
    ensures var first := lines[..a] + x + lines[a + 1..];
      first[..b] + y + first[b + 1..] == lines[..b] + y + lines[b + 1..a] + x + lines[a + 1..]
  {
    var first := lines[..a] + x + lines[a + 1..];
    assert first[..b] == lines[..b];
    assert first[b + 1..] == lines[b + 1..a] + x + lines[a + 1..];
  }

  // ---------------------------------------------------------------------
  // The loop

  /** The body of the apply loop for one spec, as the source writes it. */
  method ApplySpecStep(lines: seq<string>, p: ParsedSpec) returns (r: Result<seq<string>>)
    ensures r == ApplySpec(lines, p)
  {
    match p {
      case Single(ref, dst) =>
        var dstLines := SplitDstLines(dst);
        var at := ref.line - 1;
        if at >= |lines| {
          return Err(LineOutOfRange(ref.line, |lines|));
        }
        r := Ok(lines[..at] + dstLines + lines[at + 1..]);
      case Range(start, end, dst) =>
        var dstLines := SplitDstLines(dst);
        var s := start.line - 1;
        var e := end.line - 1;
        if s >= |lines| || e >= |lines| {
          return Err(RangeOutOfBounds(|lines|));
        }
        if s > e {
          return Err(InvalidRange);
        }
        r := Ok(lines[..s] + dstLines + lines[e + 1..]);
      case Insert(after, dst) =>
        var dstLines := SplitDstLines(dst);
        var at := after.line;
        if after.line > |lines| {
          return Err(LineOutOfRange(after.line, |lines|));
        }
        r := Ok(lines[..at] + dstLines + lines[at..]);
      case ReplaceText(o, n, all) =>
        var joined := JoinLines(lines);
        if all {
          r := Ok(Split(ReplaceAll(joined, o, n), '\n'));
        } else {
          var found := Find(joined, o);
          if found.Some? {
            var pos := found.value;
            var out := joined[..pos] + n + joined[pos + |o|..];
            r := Ok(Split(out, '\n'));
          } else {
            r := Err(OldTextNotFound);
          }
        }
    }
  }

  /** The apply loop of `apply_hashline_edits`, reassigning the line
      sequence spec by spec. */
  method ApplyAll(lines: seq<string>, ps: seq<ParsedSpec>) returns (r: Result<seq<string>>)
    ensures r == ApplySpecs(lines, ps)
  {
    var cur := lines;
    for i := 0 to |ps|
      invariant ApplySpecs(lines, ps) == ApplySpecs(cur, ps[i..])
    {
      assert ps[i..][1..] == ps[i + 1..];
      var step := ApplySpecStep(cur, ps[i]);
      if step.Err? {
        return Err(step.error);
      }
      cur := step.value;
    }
    r := Ok(cur);
  }
}
