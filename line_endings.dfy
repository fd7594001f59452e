/** The text filters around the engine: CRLF detection, normalisation to
    LF and restoration, and the split of a file's text into addressable
    lines (a trailing newline does not make an extra empty line). */
module LineEndings {
  import opened Strings

  /** `detect_line_ending`: CRLF as soon as the text holds one "\r\n". */
  function DetectLineEnding(s: string): (e: string)
    ensures e == "\n" || e == "\r\n"
  {
    if Contains(s, "\r\n") then "\r\n" else "\n"
  }

  /** CRLF is detected exactly when "\r\n" occurs somewhere in the text. */
  lemma DetectLineEndingSpec(s: string)
    ensures DetectLineEnding(s) == "\r\n" <==> exists k: nat :: MatchAt(s, "\r\n", k)
    ensures DetectLineEnding(s) == "\n" <==> forall k: nat :: !MatchAt(s, "\r\n", k)
  {
    FindLeftmost(s, "\r\n");
    if Find(s, "\r\n").Some? {
      assert MatchAt(s, "\r\n", Find(s, "\r\n").value);
    } else {
      forall k: nat ensures !MatchAt(s, "\r\n", k) {
        if k > |s| {
          assert !(k + 2 <= |s|);
        }
      }
    }
  }

  /** `normalize_to_lf`. */
  function NormalizeToLf(s: string): string {
    ReplaceAll(s, "\r\n", "\n")
  }

  /** `restore_line_endings`. */
  function RestoreLineEndings(s: string, ending: string): string {
    if ending == "\n" then s else ReplaceAll(s, "\n", ending)
  }

  /** `split_preserve_last_empty`: the pieces between newlines, less the one
      empty piece a final newline leaves behind. No line holds a newline,
      and joining the lines and putting the final newline back gives the
      text again. */
  function SplitPreserveLastEmpty(s: string): (lines: seq<string>)
    ensures |lines| >= 1
    ensures forall i :: 0 <= i < |lines| ==> '\n' !in lines[i]
    ensures Join(lines, '\n') + (if EndsWith(s, '\n') then "\n" else "") == s
  {
    var parts := Split(s, '\n');
    JoinSplit(s, '\n');
    SplitEndsWithSeparator(s, '\n');
    if EndsWith(s, '\n') && parts[|parts| - 1] == "" then
      JoinSnoc(parts[..|parts| - 1], "", '\n');
      assert parts == parts[..|parts| - 1] + [""];
      parts[..|parts| - 1]
    else
      parts
  }

  lemma {:induction false} SplitEndsWithSeparator(s: string, c: char)
    ensures EndsWith(s, c) ==> |Split(s, c)| >= 2 && Split(s, c)[|Split(s, c)| - 1] == ""
  {
    if !EndsWith(s, c) {
    } else if |s| == 1 {
      assert s[1..] == [];
    } else {
      assert EndsWith(s[1..], c);
      SplitEndsWithSeparator(s[1..], c);
    }
  }

  lemma {:induction false} JoinSnoc(ps: seq<string>, x: string, c: char)
    requires |ps| >= 1
    ensures Join(ps + [x], c) == Join(ps, c) + [c] + x
  {
    if |ps| == 1 {
      assert (ps + [x])[1..] == [x];
    } else {
      JoinSnoc(ps[1..], x, c);
      assert (ps + [x])[1..] == ps[1..] + [x];
    }
  }

  // ---------------------------------------------------------------------
  // CRLF round trip

  /** Every '\n' of the text is the second half of a "\r\n". */
  predicate CrlfOnly(s: string) {
    forall i :: 0 <= i < |s| && s[i] == '\n' ==> 0 < i && s[i - 1] == '\r'
  }

  lemma RestoreCons(c: char, x: string)
    ensures ReplaceAll([c] + x, "\n", "\r\n")
      == (if c == '\n' then "\r\n" else [c]) + ReplaceAll(x, "\n", "\r\n")
  {
    assert ([c] + x)[..1] == [c];
    assert ([c] + x)[1..] == x;
  }

  /** Restoring CRLF after normalising gives back a text whose every line
      ending was CRLF. */
  lemma {:induction false} RestoreNormalize(s: string)
    requires CrlfOnly(s)
    ensures RestoreLineEndings(NormalizeToLf(s), "\r\n") == s
    decreases |s|
  {
    if |s| < 2 {
      if |s| == 1 {
        assert s[0] != '\n';
        RestoreCons(s[0], []);
        assert s == [s[0]] + [];
      }
    } else if s[..2] == "\r\n" {
      var rest := s[2..];
      assert CrlfOnly(rest) by {
        forall i | 0 <= i < |rest| && rest[i] == '\n' ensures 0 < i && rest[i - 1] == '\r' {
          assert s[i + 2] == '\n';
          assert s[1] == s[..2][1];
          if i > 0 {
            assert rest[i - 1] == s[i + 1];
          }
        }
      }
      RestoreNormalize(rest);
      RestoreCons('\n', NormalizeToLf(rest));
      assert "\n" + NormalizeToLf(rest) == ['\n'] + NormalizeToLf(rest);
      assert s == s[..2] + rest;
    } else {
      var rest := s[1..];
      assert s[0] != '\n';
      assert CrlfOnly(rest) by {
        forall i | 0 <= i < |rest| && rest[i] == '\n' ensures 0 < i && rest[i - 1] == '\r' {
          assert s[i + 1] == '\n';
        }
      }
      RestoreNormalize(rest);
      RestoreCons(s[0], NormalizeToLf(rest));
      assert s == [s[0]] + rest;
    }
  }

  lemma {:induction false} RestoreShape(x: string)
    ensures (ReplaceAll(x, "\n", "\r\n") == []) == (x == [])
    ensures x != [] ==> ReplaceAll(x, "\n", "\r\n")[0] != '\n'
  {
    if x != [] {
      RestoreCons(x[0], x[1..]);
      assert x == [x[0]] + x[1..];
    }
  }

  /** Normalising undoes restoring CRLF, whatever the text. */
  lemma {:induction false} NormalizeRestore(x: string)
    ensures NormalizeToLf(RestoreLineEndings(x, "\r\n")) == x
    decreases |x|
  {
    if x != [] {
      var rest := x[1..];
      var y := ReplaceAll(rest, "\n", "\r\n");
      RestoreCons(x[0], rest);
      NormalizeRestore(rest);
      RestoreShape(rest);
      assert x == [x[0]] + rest;
      if x[0] == '\n' {
        var z := "\r\n" + y;
        assert z[..2] == "\r\n";
        assert z[2..] == y;
      } else {
        var z := [x[0]] + y;
        if y != [] {
          assert z[1] == y[0];
          assert z[..2] != "\r\n";
          assert z[1..] == y;
        }
      }
    }
  }

  lemma {:induction false} NormalizeEnds(s: string)
    ensures (NormalizeToLf(s) == []) == (s == [])
    ensures EndsWith(NormalizeToLf(s), '\n') == EndsWith(s, '\n')
    decreases |s|
  {
    if |s| >= 2 {
      if s[..2] == "\r\n" {
        NormalizeEnds(s[2..]);
        assert s == s[..2] + s[2..];
        if s[2..] == [] {
          assert s == "\r\n";
        } else {
          assert s[|s| - 1] == s[2..][|s[2..]| - 1];
        }
      } else {
        NormalizeEnds(s[1..]);
        assert s == [s[0]] + s[1..];
        if s[1..] != [] {
          assert s[|s| - 1] == s[1..][|s[1..]| - 1];
        }
      }
    }
  }

  /** Reading a file and writing it back unedited rebuilds it byte for
      byte, provided it uses one line-ending style: when it holds a CRLF,
      every newline in it is part of one. */
  lemma TextRoundTrip(s: string)
    requires Contains(s, "\r\n") ==> CrlfOnly(s)
    ensures
      var lines := SplitPreserveLastEmpty(NormalizeToLf(s));
      var out := Join(lines, '\n') + (if EndsWith(s, '\n') then "\n" else "");
      RestoreLineEndings(out, DetectLineEnding(s)) == s
  {
    var n := NormalizeToLf(s);
    NormalizeEnds(s);
    assert Join(SplitPreserveLastEmpty(n), '\n') + (if EndsWith(s, '\n') then "\n" else "") == n;
    if Contains(s, "\r\n") {
      RestoreNormalize(s);
    } else {
      ReplaceAllNoMatch(s, "\r\n", "\n");
    }
  }
}
