/** The edit path of `main`, without the file system: the text read from the
    file and the decoded edits go in, the text to write back (or the
    reason nothing is written) comes out. */
module Cli {
  import opened Results
  import opened Strings
  import opened LineEndings
  import opened Fingerprint
  import opened Anchors
  import opened Splicing
  import opened Specs
  import opened Engine

  /** The text written back: the lines joined, the final newline restored
      when the file had one, and then the file's line ending. */
  function WrittenText(lines: seq<string>, hadFinalNewline: bool, ending: string): string {
    RestoreLineEndings(Join(lines, '\n') + (if hadFinalNewline then "\n" else ""), ending)
  }

  /** The `edit` command on the text of a file. */
  function EditOutcome(raw: string, edits: seq<Edit>, xxh: Hasher): Result<string> {
    var ending := DetectLineEnding(raw);
    var hadFinalNewline := EndsWith(raw, '\n');
    var oldLines := SplitPreserveLastEmpty(NormalizeToLf(raw));
    var newLines :- ApplyEdits(oldLines, edits, xxh);
    if oldLines == newLines then Err(NoChanges)
    else Ok(WrittenText(newLines, hadFinalNewline, ending))
  }

  /** The edit path of `main`, building `out` as it does. */
  method RunEdit(raw: string, edits: seq<Edit>, xxh: Hasher) returns (r: Result<string>)
    ensures r == EditOutcome(raw, edits, xxh)
  {
    var ending := DetectLineEnding(raw);
    var hadFinalNewline := EndsWith(raw, '\n');
    var normalized := NormalizeToLf(raw);
    var oldLines := SplitPreserveLastEmpty(normalized);
    var applied := ApplyHashlineEdits(oldLines, edits, xxh);
    if applied.Err? {
      return Err(applied.error);
    }
    var newLines := applied.value;
    if oldLines == newLines {
      return Err(NoChanges);
    }
    var out := Join(newLines, '\n');
    if hadFinalNewline {
      out := out + "\n";
    } else {
      assert out + "" == out;
    }
    out := RestoreLineEndings(out, ending);
    r := Ok(out);
  }

  /** An empty batch leaves the lines as they are, so nothing is written. */
  lemma NoEditsNoChanges(raw: string, xxh: Hasher)
    ensures EditOutcome(raw, [], xxh) == Err(NoChanges)
  {
  }

  /** Setting a non-empty line to its own text through its fresh anchor is
      refused as making no change. */
  lemma SameTextNoChanges(raw: string, r: LineRef, xxh: Hasher)
    requires var lines := SplitPreserveLastEmpty(NormalizeToLf(raw));
      r.line <= |lines| && r.line < UsizeBound
      && r.hash == LineHash(lines[r.line - 1], xxh) && lines[r.line - 1] != ""
    ensures var lines := SplitPreserveLastEmpty(NormalizeToLf(raw));
      EditOutcome(raw, [SetLine(FormatLineRef(r), lines[r.line - 1])], xxh) == Err(NoChanges)
  {
    var lines := SplitPreserveLastEmpty(NormalizeToLf(raw));
    SetLineByFreshAnchor(lines, r, lines[r.line - 1], xxh);
    SetLineOwnText(lines, r);
  }

  lemma NoCarriageReturnNoCrlf(x: string)
    requires '\r' !in x
    ensures NormalizeToLf(x) == x
  {
    if Find(x, "\r\n").Some? {
      FindFirstChar(x, "\r\n");
      assert false;
    }
    ReplaceAllNoMatch(x, "\r\n", "\n");
  }

  /** The written text reads back as the new lines, with the final
      newline kept as it was, for lines without a carriage return whose
      last line is not an empty one left without a final newline. */
  lemma WrittenTextReadsBack(lines: seq<string>, hadFinalNewline: bool, ending: string)
    requires ending == "\n" || ending == "\r\n"
    requires lines != []
    requires forall i :: 0 <= i < |lines| ==> '\n' !in lines[i] && '\r' !in lines[i]
    requires hadFinalNewline || lines[|lines| - 1] != ""
    ensures SplitPreserveLastEmpty(NormalizeToLf(WrittenText(lines, hadFinalNewline, ending))) == lines
  {
    NormalizeWritten(lines, hadFinalNewline, ending);
    SplitJoined(lines, hadFinalNewline);
  }

  /** Normalising the written text undoes the line-ending restoration. */
  lemma NormalizeWritten(lines: seq<string>, hadFinalNewline: bool, ending: string)
    requires ending == "\n" || ending == "\r\n"
    requires forall i :: 0 <= i < |lines| ==> '\r' !in lines[i]
    ensures NormalizeToLf(WrittenText(lines, hadFinalNewline, ending))
      == Join(lines, '\n') + (if hadFinalNewline then "\n" else "")
  {
    var x := Join(lines, '\n') + (if hadFinalNewline then "\n" else "");
    if ending == "\n" {
      JoinNoCarriageReturn(lines);
      assert '\r' !in x;
      NoCarriageReturnNoCrlf(x);
    } else {
      NormalizeRestore(x);
    }
  }

  /** Splitting the joined lines, less the piece the final newline leaves,
      gives the lines back. */
  lemma SplitJoined(lines: seq<string>, hadFinalNewline: bool)
    requires lines != []
    requires forall i :: 0 <= i < |lines| ==> '\n' !in lines[i]
    requires hadFinalNewline || lines[|lines| - 1] != ""
    ensures SplitPreserveLastEmpty(Join(lines, '\n') + (if hadFinalNewline then "\n" else "")) == lines
  {
    if hadFinalNewline {
      SplitJoinedFinal(lines);
    } else {
      SplitJoinedNoFinal(lines);
    }
  }

  lemma SplitJoinedFinal(lines: seq<string>)
    requires lines != []
    requires forall i :: 0 <= i < |lines| ==> '\n' !in lines[i]
    ensures SplitPreserveLastEmpty(Join(lines, '\n') + "\n") == lines
  {
    var x := Join(lines, '\n') + "\n";
    JoinSnoc(lines, "", '\n');
    assert x == Join(lines + [""], '\n');
    SplitJoin(lines + [""], '\n');
    assert Split(x, '\n') == lines + [""];
    assert (lines + [""])[..|lines|] == lines;
  }

  lemma SplitJoinedNoFinal(lines: seq<string>)
    requires lines != [] && lines[|lines| - 1] != ""
    requires forall i :: 0 <= i < |lines| ==> '\n' !in lines[i]
    ensures SplitPreserveLastEmpty(Join(lines, '\n') + "") == lines
  {
    var joined := Join(lines, '\n');
    assert joined + "" == joined;
    SplitJoin(lines, '\n');
    JoinLastChar(lines);
    var l := lines[|lines| - 1];
    assert l[|l| - 1] in l;
  }

  lemma {:induction false} JoinNoCarriageReturn(lines: seq<string>)
    requires forall i :: 0 <= i < |lines| ==> '\r' !in lines[i]
    ensures '\r' !in Join(lines, '\n')
  {
    if |lines| > 1 {
      JoinNoCarriageReturn(lines[1..]);
    }
  }

  /** A join ends as its last piece does, when that piece is not empty. */
  lemma {:induction false} JoinLastChar(lines: seq<string>)
    requires lines != [] && lines[|lines| - 1] != ""
    ensures var j := Join(lines, '\n'); var l := lines[|lines| - 1];
      |j| > 0 && j[|j| - 1] == l[|l| - 1]
  {
    if |lines| > 1 {
      JoinLastChar(lines[1..]);
    }
  }
}
