/** `render_mismatch_error`: the message that refuses a batch with stale
    anchors, listing each one with the line's current anchor and content,
    then a table of replacements. */
module Diagnostics {
  import opened Results
  import opened Strings
  import opened Fingerprint
  import opened Anchors
  import opened Relocation

  const Intro := " line(s) have changed since last read. Re-read the file and use updated LINE:HASH refs.\n\n"
  const QuickFixIntro := "Quick fix: replace stale refs:\n"

  /** `lines.get(line - 1)`, or the empty string past the end. */
  function LineAt(lines: seq<string>, line: Pos): string {
    if line <= |lines| then lines[line - 1] else ""
  }

  /** A `{line}:{hash}|{content}` row. */
  function Row(ln: Pos, hash: string, content: string): string {
    FormatLineRef(LineRef(ln, hash)) + "|" + content
  }

  /** The row the read command prints for line `ln`. */
  function ReadRow(ln: Pos, line: string, xxh: Hasher): string {
    Row(ln, LineHash(line, xxh), line)
  }

  /** The row a mismatch block shows: the recorded line number, the hash
      the line actually has, and the line's content. */
  function EntryRow(lines: seq<string>, m: Mismatch): string {
    Row(m.line, m.actual, LineAt(lines, m.line))
  }

  /** The block of the first loop for one mismatch. */
  function Entry(lines: seq<string>, m: Mismatch): string {
    ">>> " + EntryRow(lines, m) + "\n    expected " + m.expected + "\n\n"
  }

  /** The two anchors of a quick-fix row: the stale one and its
      replacement, on the same line number. */
  function QuickFixFrom(m: Mismatch): LineRef {
    LineRef(m.line, m.expected)
  }

  function QuickFixTo(m: Mismatch): LineRef {
    LineRef(m.line, m.actual)
  }

  /** The row of the second loop for one mismatch. */
  function QuickFixRow(m: Mismatch): string {
    "  " + FormatLineRef(QuickFixFrom(m)) + " -> " + FormatLineRef(QuickFixTo(m)) + "\n"
  }

  function Entries(lines: seq<string>, ms: seq<Mismatch>): string {
    if ms == [] then "" else Entries(lines, ms[..|ms| - 1]) + Entry(lines, ms[|ms| - 1])
  }

  function QuickFixRows(ms: seq<Mismatch>): string {
    if ms == [] then "" else QuickFixRows(ms[..|ms| - 1]) + QuickFixRow(ms[|ms| - 1])
  }

  /** Everything after the count. */
  function MessageBody(lines: seq<string>, ms: seq<Mismatch>): string {
    Intro + Entries(lines, ms) + QuickFixIntro + QuickFixRows(ms)
  }

  /** The whole message. */
  function MismatchMessage(lines: seq<string>, ms: seq<Mismatch>): string {
    NatToDecimal(|ms|) + MessageBody(lines, ms)
  }

  /** The message starts with the number of stale anchors, which reads
      back as that number. */
  lemma MessageCount(lines: seq<string>, ms: seq<Mismatch>)
    requires |ms| < UsizeBound
    ensures var d := NatToDecimal(|ms|);
      MismatchMessage(lines, ms)[..|d|] == d && ParseUsize(d) == Some(|ms|)
  {
    var d := NatToDecimal(|ms|);
    assert (d + MessageBody(lines, ms))[..|d|] == d;
    ParseUsizeDecimal(|ms|);
  }

  /** For a mismatch recorded against the current lines, the block shows
      exactly the row the read command would print for that line now. */
  lemma EntryShowsCurrentRow(lines: seq<string>, unique: map<string, Pos>, m: Mismatch, xxh: Hasher)
    requires Accurate(m, lines, unique, xxh)
    ensures EntryRow(lines, m) == ReadRow(m.line, lines[m.line - 1], xxh)
  {
  }

  /** Both sides of a quick-fix row name the recorded line; the right-hand
      side is the line's anchor as it now stands, and it parses back to
      that anchor, so the stale anchor can be replaced by it. */
  lemma QuickFixRowParses(lines: seq<string>, unique: map<string, Pos>, m: Mismatch, xxh: Hasher)
    requires Accurate(m, lines, unique, xxh) && m.line < UsizeBound
    ensures QuickFixFrom(m).line == QuickFixTo(m).line == m.line
    ensures QuickFixFrom(m).hash == m.expected
    ensures ParseLineRef(FormatLineRef(QuickFixTo(m))) == Ok(QuickFixTo(m))
    ensures Resolved(QuickFixTo(m), lines, xxh)
  {
    var at: nat := m.line - 1;
    assert QuickFixTo(m) == LineRef(m.line, LineHash(lines[at], xxh));
    LineHashAnchorRoundTrip(m.line, lines[at], xxh);
  }

  /** The first loop: one block per mismatch. */
  method AppendEntries(out: string, lines: seq<string>, ms: seq<Mismatch>) returns (res: string)
    ensures res == out + Entries(lines, ms)
  {
    res := out;
    for i := 0 to |ms|
      invariant res == out + Entries(lines, ms[..i])
    {
      var e := Entry(lines, ms[i]);
      EntriesSnoc(lines, ms, i);
      AppendAssoc(out, Entries(lines, ms[..i]), e);
      res := res + e;
    }
    assert ms[..|ms|] == ms;
  }

  /** The second loop: one quick-fix row per mismatch. */
  method AppendQuickFixRows(out: string, ms: seq<Mismatch>) returns (res: string)
    ensures res == out + QuickFixRows(ms)
  {
    res := out;
    for i := 0 to |ms|
      invariant res == out + QuickFixRows(ms[..i])
    {
      var row := QuickFixRow(ms[i]);
      QuickFixRowsSnoc(ms, i);
      AppendAssoc(out, QuickFixRows(ms[..i]), row);
      res := res + row;
    }
    assert ms[..|ms|] == ms;
  }

  /** `render_mismatch_error`, appending to `out`. */
  method RenderMismatchError(lines: seq<string>, ms: seq<Mismatch>) returns (out: string)
    ensures out == MismatchMessage(lines, ms)
  {
    var count := NatToDecimal(|ms|);
    out := count + Intro;
    out := AppendEntries(out, lines, ms);
    out := out + QuickFixIntro;
    out := AppendQuickFixRows(out, ms);
    Assoc5(count, Intro, Entries(lines, ms), QuickFixIntro, QuickFixRows(ms));
  }

  lemma EntriesSnoc(lines: seq<string>, ms: seq<Mismatch>, i: nat)
    requires i < |ms|
    ensures Entries(lines, ms[..i + 1]) == Entries(lines, ms[..i]) + Entry(lines, ms[i])
  {
    assert ms[..i + 1][..i] == ms[..i];
  }

  lemma QuickFixRowsSnoc(ms: seq<Mismatch>, i: nat)
    requires i < |ms|
    ensures QuickFixRows(ms[..i + 1]) == QuickFixRows(ms[..i]) + QuickFixRow(ms[i])
  {
    assert ms[..i + 1][..i] == ms[..i];
  }


  lemma AppendAssoc(a: string, b: string, c: string)
    ensures a + b + c == a + (b + c)
  {
  }

  lemma Assoc5(a: string, b: string, c: string, d: string, e: string)
    ensures a + b + c + d + e == a + (b + c + d + e)
  {
    assert a + b + c == a + (b + c);
    assert a + (b + c) + d == a + (b + c + d);
  }
}
