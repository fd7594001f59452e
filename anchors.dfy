/** `LINE:HASH` anchors: the `LineRef` record, `parse_line_ref`, and the
    `{line}:{hash}` form in which the tool prints anchors. */
module Anchors {
  import opened Results
  import opened Strings
  import opened Fingerprint

  /** An anchor: a 1-indexed line number and the (lower-cased) hash the
      caller expects that line to have. */
  datatype LineRef = LineRef(line: Pos, hash: string)

  /** `parse_line_ref`. The line part is parsed as it stands (no trimming);
      only the hash part is trimmed and lower-cased. */
  function ParseLineRef(s: string): (r: Result<LineRef>)
    ensures r.Ok? ==> r.value.line < UsizeBound && r.value.hash != []
  {
    var parts := Split(s, ':');
    if |parts| < 2 then Err(InvalidAnchor(s))
    else if |parts| > 2 then Err(TooManyColons(s))
    else
      match ParseUsize(parts[0])
      case None => Err(InvalidLineNumber(s))
      case Some(line) =>
        if line == 0 then Err(ZeroLine(s))
        else
          var hash := AsciiLower(Trim(parts[1]));
          if hash == [] then Err(InvalidHash(s)) else Ok(LineRef(line, hash))
  }

  /** `format!("{}:{}", line, hash)`, as the read output and the quick-fix
      table print anchors. */
  function FormatLineRef(r: LineRef): string {
    NatToDecimal(r.line) + ":" + r.hash
  }

  /** An anchor without exactly one ':' is refused: "invalid anchor" when
      there is none, "too many ':'" when there are more; an anchor with
      exactly one ':' is its left part, the ':', and its right part. */
  lemma ParseLineRefColons(s: string)
    ensures CountChar(s, ':') == 0 ==> ParseLineRef(s) == Err(InvalidAnchor(s))
    ensures CountChar(s, ':') >= 2 ==> ParseLineRef(s) == Err(TooManyColons(s))
    ensures CountChar(s, ':') == 1 ==>
      var parts := Split(s, ':');
      |parts| == 2 && s == parts[0] + ":" + parts[1]
  {
    SplitLength(s, ':');
    JoinSplit(s, ':');
  }

  /** For an anchor `a:b` with a single ':', parsing succeeds exactly when
      `a` is a `usize` of at least 1 and `b` is not all whitespace, and then
      yields that line and `b` trimmed and lower-cased. */
  lemma ParseLineRefParts(a: string, b: string)
    requires ':' !in a && ':' !in b
    ensures ParseLineRef(a + ":" + b).Ok?
      <==> ParseUsize(a).Some? && ParseUsize(a).value >= 1 && Trim(b) != []
    ensures ParseLineRef(a + ":" + b).Ok? ==>
      ParseLineRef(a + ":" + b).value == LineRef(ParseUsize(a).value, AsciiLower(Trim(b)))
  {
    SplitAfterSegment(a, b, ':');
    SplitNoSeparator(b, ':');
    assert a + ":" + b == a + [':'] + b;
  }

  /** The hashes `compute_line_hash` produces: non-empty lowercase hex. */
  predicate CanonicalHash(h: string) {
    |h| > 0 && forall i :: 0 <= i < |h| ==> IsLowerHex(h[i])
  }

  /** A printed anchor parses back to itself. */
  lemma ParseFormatRoundTrip(r: LineRef)
    requires r.line < UsizeBound && CanonicalHash(r.hash)
    ensures ParseLineRef(FormatLineRef(r)) == Ok(r)
  {
    var a := NatToDecimal(r.line);
    var h := r.hash;
    assert ':' !in a by {
      forall i | 0 <= i < |a| ensures a[i] != ':' { assert IsDigit(a[i]); }
    }
    assert ':' !in h by {
      forall i | 0 <= i < |h| ensures h[i] != ':' { assert IsLowerHex(h[i]); }
    }
    ParseUsizeDecimal(r.line);
    assert !IsWhitespace(h[0]) && !IsWhitespace(h[|h| - 1]) by {
      assert IsLowerHex(h[0]) && IsLowerHex(h[|h| - 1]);
    }
    TrimUnchanged(h);
    assert AsciiLower(h) == h by {
      forall i | 0 <= i < |h| ensures AsciiLower(h)[i] == h[i] { assert IsLowerHex(h[i]); }
    }
    ParseLineRefParts(a, h);
  }

  /** Every fingerprint is a canonical hash, so an anchor made from a line
      number and that line's fingerprint survives printing and parsing. */
  lemma LineHashAnchorRoundTrip(line: Pos, text: string, xxh: Hasher)
    requires line < UsizeBound
    ensures ParseLineRef(FormatLineRef(LineRef(line, LineHash(text, xxh))))
      == Ok(LineRef(line, LineHash(text, xxh)))
  {
    ParseFormatRoundTrip(LineRef(line, LineHash(text, xxh)));
  }
}
