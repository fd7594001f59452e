# hashline edit engine in Dafny

`hashline` is a tool that reads and edits text files through `LINE:HASH`
anchors. The read command prints each line as `{line}:{hash}|{content}`.
The hash is a four-hex-digit fingerprint of the line in which whitespace
does not count. An edit names the lines it touches by such anchors. It can
set one line, replace a range of lines, insert after a line, or replace
text in the whole file.

The engine, `apply_hashline_edits`, works in stages:

1. It fingerprints every line. It records which fingerprints occur
   exactly once.
2. It parses every anchor.
3. It checks every anchor against the current lines. An anchor whose line
   no longer carries its hash moves to the one line that does, when
   exactly one line does. Otherwise the anchor is recorded as stale.
4. It refuses the whole batch if any anchor is stale. The refusal message
   lists each stale anchor with the line's current anchor and content.
5. Otherwise it sorts the edits bottom-up and splices them into the line
   sequence. Text replacements run last.

Around the engine, the `edit` command does the following:

- detects the file's line ending;
- normalises CRLF to LF;
- splits the text into addressable lines (a final newline does not make
  an extra empty line);
- runs the engine;
- refuses an edit that changes nothing;
- joins the lines and restores the final newline and the line endings.

The project models all of this in Dafny and proves properties of the
model. The modules follow the stages:

| module | what it holds |
|---|---|
| `Results` | line numbers, mismatch records, error kinds, `Option` and `Result` |
| `Strings` | the `str` operations the engine uses: split, join, find, replace, trim, lowercase, `usize` parsing and formatting |
| `LineEndings` | ending detection, CRLF normalise and restore, `split_preserve_last_empty` |
| `Fingerprint` | `compute_line_hash`, with xxh32 as a parameter |
| `Anchors` | `LineRef` and `parse_line_ref`, plus the printed `{line}:{hash}` form |
| `Uniqueness` | the `counts`, `first_seen` and `unique` maps |
| `Specs` | decoded edits and their parsed specs (the parse loop) |
| `Relocation` | `validate_or_relocate` and the validate loop |
| `Ordering` | the bottom-up sort |
| `Splicing` | the apply loop and `split_dst_lines` |
| `Diagnostics` | `render_mismatch_error` |
| `Engine` | `apply_hashline_edits` as a whole |
| `Cli` | the edit path of `main`, without the file system |

Each module has two layers:

- Functions say what each step computes.
- Methods are written the way the source's loops are, and each method's
  `ensures` ties it to its function. This covers the two map-building
  loops, the parse loop, the in-place validate loop, the apply loop, the
  hashing loop and the message-building loops.

Lemmas state what the source promises about those functions.

xxh32 is foreign code, so every function and lemma that hashes takes it as
a parameter `xxh: Hasher` (`seq<char> -> bv32`). Everything is proved for
every such function.

The rows below that name a definition (a function with no contract of its
own) say which source lines it transcribes and which lemmas state its
properties.

## Model

| member | source | states |
|---|---|---|
| Fingerprint.LineHash | hashline/src/main.rs:231-246 | the fingerprint is exactly four lowercase hex digits, and their value is the low 16 bits of xxh32 of the line with '\r' and whitespace removed |
| Fingerprint.ComputeLineHash | hashline/src/main.rs:231-246 | the character loop that skips '\r' and whitespace, then truncates and formats, yields `LineHash` |
| Fingerprint.StripInvariant | hashline/src/main.rs:231-242 | a line and its stripped form have the same fingerprint |
| Fingerprint.WhitespaceInsensitive | hashline/src/main.rs:231-242 | inserting or removing one whitespace or '\r' character anywhere leaves the fingerprint unchanged |
| Fingerprint.HexRoundTrip | hashline/src/main.rs:244-245 | `{:04x}` of a value below 16^4 reads back as that value |
| Fingerprint.StripConcat | hashline/src/main.rs:233-241 | stripping distributes over concatenation |
| Strings.ParseUsizeDecimal | hashline/src/main.rs:256-258 | a formatted `usize` parses back to the same number |
| Strings.SplitJoin | hashline/src/main.rs:222 | splitting the join of separator-free pieces gives back the pieces |
| Strings.JoinSplit | hashline/src/main.rs:222 | joining the pieces of a split gives back the string |
| Strings.SplitLength | hashline/src/main.rs:249-254 | a split has one more piece than there are separators |
| Strings.FindLeftmost | hashline/src/main.rs:415 | `find` returns the leftmost occurrence, and returns none only when there is no occurrence |
| Strings.ReplaceAllNoMatch | hashline/src/main.rs:411-413 | `replace` leaves a string without the pattern unchanged |
| Strings.ReplaceAllAtFind | hashline/src/main.rs:413 | `replace` keeps the text before the leftmost occurrence, substitutes that occurrence, and carries on after it |
| Strings.ReplaceAllSelf | hashline/src/main.rs:413 | replacing a pattern by itself changes nothing |
| Strings.TrimEmpty | hashline/src/main.rs:263-266 | trimming gives the empty string exactly when the string is all whitespace |
| LineEndings.DetectLineEnding | hashline/src/main.rs:196-202 | the ending is "\n" or "\r\n" |
| LineEndings.DetectLineEndingSpec | hashline/src/main.rs:196-202 | the ending is "\r\n" exactly when "\r\n" occurs somewhere in the text, and "\n" exactly when it occurs nowhere |
| LineEndings.SplitPreserveLastEmpty | hashline/src/main.rs:216-229 | there is at least one line (an empty file has line 1), no line holds a newline, and joining the lines and adding back the final newline gives the text again |
| LineEndings.NormalizeToLf | hashline/src/main.rs:204-206 | definition: every "\r\n" replaced by "\n"; see NormalizeRestore, RestoreNormalize, NormalizeEnds |
| LineEndings.RestoreLineEndings | hashline/src/main.rs:208-214 | definition: the text unchanged for "\n", otherwise every "\n" replaced by the ending; see NormalizeRestore, RestoreNormalize, TextRoundTrip |
| LineEndings.RestoreNormalize | hashline/src/main.rs:204-214 | when every newline is part of a "\r\n", restoring CRLF after normalising gives the text back |
| LineEndings.NormalizeRestore | hashline/src/main.rs:204-214 | normalising undoes restoring CRLF, whatever the text |
| LineEndings.NormalizeEnds | hashline/src/main.rs:204-206 | normalising keeps emptiness and a final '\n' |
| LineEndings.TextRoundTrip | hashline/src/main.rs:196-229 | for a text with one line-ending style, normalising, splitting, joining, re-adding the final newline and restoring the endings rebuilds the text |
| Anchors.ParseLineRef | hashline/src/main.rs:248-269 | a parsed anchor has a line number below 2^64 and a non-empty hash |
| Anchors.ParseLineRefColons | hashline/src/main.rs:249-254 | an anchor without ':' is "invalid anchor", one with two or more is "too many ':'", and one with exactly one is its left part, ':' and its right part |
| Anchors.ParseLineRefParts | hashline/src/main.rs:248-269 | `a:b` parses exactly when `a` is a `usize` of at least 1 (untrimmed) and `b` is not all whitespace, and then to that line and `b` trimmed and ASCII-lowercased |
| Anchors.FormatLineRef | hashline/src/main.rs:482 | definition: the `{line}:{hash}` rendering of an anchor; see ParseFormatRoundTrip, LineHashAnchorRoundTrip |
| Anchors.ParseFormatRoundTrip | hashline/src/main.rs:248-269 | a printed `{line}:{hash}` with a lowercase hex hash parses back to the same anchor |
| Anchors.LineHashAnchorRoundTrip | hashline/src/main.rs:231-269 | the anchor the read command prints for a line parses back to that line number and fingerprint |
| Uniqueness.UniqueLines | hashline/src/main.rs:276-292 | definition: the fingerprints counted once, each mapped to its first line; see UniqueLinesSpec, UniqueAmongAll, BuildUnique |
| Uniqueness.UniqueLinesSpec | hashline/src/main.rs:276-292 | a fingerprint is in `unique` exactly when one line carries it, and `unique` maps it to that line's 1-indexed number |
| Uniqueness.CountOne | hashline/src/main.rs:286-288 | a fingerprint is counted once exactly when it occurs and occurs only at its first index |
| Uniqueness.CountLines | hashline/src/main.rs:276-284 | the first loop builds `counts` and `first_seen` for all lines |
| Uniqueness.SelectUnique | hashline/src/main.rs:285-292 | the second loop keeps exactly the fingerprints counted once that are in `first_seen`, each with its first line |
| Uniqueness.BuildUnique | hashline/src/main.rs:276-292 | both loops give the `unique` map of the lines |
| Uniqueness.UniqueAmongAll | hashline/src/main.rs:285-292 | after every counted fingerprint has been visited, the selection is the `unique` map |
| Specs.SplitDstLines | hashline/src/main.rs:433-439 | no piece holds a newline, the result is empty exactly for the empty text, and the pieces join back to the text |
| Specs.SplitDstLinesJoin | hashline/src/main.rs:433-439 | a block of newline-free lines, other than none or one empty line, is what its joined text splits into |
| Specs.ParseEdit | hashline/src/main.rs:307-340 | definition: one arm of the parse loop; see ParseEditSpec |
| Specs.ParseEdits | hashline/src/main.rs:305-342 | definition: the parse loop with the first error aborting; see ParseEditsSpec, ParseAll |
| Specs.ParseEditSpec | hashline/src/main.rs:307-342 | an edit parses exactly when its anchors parse and its required text is present; it then keeps its kind, anchors and texts, with `all` defaulting to false; an insertion reports a bad anchor before an empty text |
| Specs.ParseEditsSpec | hashline/src/main.rs:307-342 | the parse loop succeeds exactly when every edit parses, with one spec per edit in order; on failure the error is that of the first failing edit |
| Specs.ParseAll | hashline/src/main.rs:305-342 | the parse loop pushing onto `parsed` yields `ParseEdits` |
| Relocation.ValidateOrRelocate | hashline/src/main.rs:441-463 | it fails exactly when the line is past the end, with the line-out-of-range error; on success the hash is kept |
| Relocation.ValidateOrRelocateKeeps | hashline/src/main.rs:451-454 | an anchor that matches its line is returned unchanged and records nothing |
| Relocation.ValidateOrRelocateMoves | hashline/src/main.rs:456-459 | a stale anchor whose hash exactly one line carries moves to that line and records nothing |
| Relocation.ValidateOrRelocateResolves | hashline/src/main.rs:441-463 | an anchor that leaves without a new record names a line carrying its hash; it moved only when its own line did not match and exactly one line carries the hash |
| Relocation.ValidateOrRelocateRecords | hashline/src/main.rs:461 | when a record is added, the anchor is unchanged, the record is (line, expected, actual), it is accurate, and no line carries the hash uniquely |
| Relocation.ValidateOrRelocateIdempotent | hashline/src/main.rs:441-463 | validating an anchor that validated without a record changes nothing |
| Relocation.QuickFixResolves | hashline/src/main.rs:451-454 | the quick-fix anchor of an accurate record resolves in place |
| Relocation.ValidateOrRelocateAnchor | hashline/src/main.rs:441-463 | the method that hashes with the hashing loop yields `ValidateOrRelocate` |
| Relocation.ValidateSpec | hashline/src/main.rs:346-356 | definition: one turn of the validate loop; see ValidateSpecSpec, ValidateRangeSpec, ValidateSpecShape, ValidateSpecStep |
| Relocation.ValidateSpecs | hashline/src/main.rs:344-358 | definition: the validate loop threading the records; see ValidateSpecsSpec, ValidateSpecsPrefixErr, ValidateAll |
| Relocation.ValidateSpecStep | hashline/src/main.rs:346-356 | one turn of the validate loop yields `ValidateSpec`: both ends of a range, then the start-after-end check |
| Relocation.ValidateAll | hashline/src/main.rs:344-358 | the validate loop, rewriting the specs in place, yields `ValidateSpecs` |
| Relocation.ValidateSpecsPrefixErr | hashline/src/main.rs:344-358 | a failing prefix fails the whole loop with the same error |
| Relocation.ValidateSpecShape | hashline/src/main.rs:344-358 | validation keeps a spec's kind, hashes and texts |
| Relocation.ValidateRangeSpec | hashline/src/main.rs:348-353 | for a range, the records only grow by accurate ones; without a new record, both ends resolve and the start is not after the end |
| Relocation.ValidateSpecSpec | hashline/src/main.rs:344-358 | for one spec, the records only grow by accurate ones, the shape is kept, and without a new record every anchor resolves |
| Relocation.ValidateSpecsSpec | hashline/src/main.rs:344-358 | for the whole loop, the records only grow by accurate ones and there is one same-shaped spec per input; if nothing was recorded, every spec is resolved |
| Ordering.SortKey | hashline/src/main.rs:366-372 | definition: the `(line, precedence)` key, a range by its end, text replacements `(0, 9)`; see DescendingLines, InsertBeforeReplaceAtSameLine |
| Ordering.SortSpecs | hashline/src/main.rs:374-379 | definition: the descending stable sort on that key; see SortSpecsSorted, SortSpecsStable, SortPair |
| Ordering.SortSpecsSorted | hashline/src/main.rs:366-379 | the sort gives descending keys and is a permutation of its input |
| Ordering.SortSpecsStable | hashline/src/main.rs:374-379 | specs with equal keys keep their relative order |
| Ordering.DescendingLines | hashline/src/main.rs:366-379 | after sorting, anchored specs come in non-increasing key line (a range by its end), and text replacements come after every anchored spec |
| Ordering.InsertBeforeReplaceAtSameLine | hashline/src/main.rs:366-372 | at the same key line, an insertion is applied before a line or range replacement |
| Ordering.ReplaceTextOrderKept | hashline/src/main.rs:366-379 | text replacements keep the order the edits gave them, and they are exactly the specs with key (0, 9) |
| Ordering.SortPair | hashline/src/main.rs:374-379 | of two specs, the one with the larger key goes first, and on equal keys the declared order is kept |
| Ordering.SortPairSwap | hashline/src/main.rs:364-379 | two specs with different keys are applied in the same order whichever order they were declared in |
| Splicing.ApplySpec | hashline/src/main.rs:382-427 | definition: one arm of the apply loop; see SetLineSplice, ReplaceLinesSplice, InsertAfterSplice, ApplySpecNoNewlines |
| Splicing.ReplaceInText | hashline/src/main.rs:411-426 | definition: the text-replacement arm on the joined lines; see ReplaceFirstMode, ReplaceAllModeSpec, ReplaceAllModeNoMatch, ReplaceOnEmpty |
| Splicing.ApplySpecs | hashline/src/main.rs:381-430 | definition: the apply loop with the first error aborting; see ApplySpecsNoNewlines, BottomUpSetLines, ApplyAll |
| Splicing.SetLineSplice | hashline/src/main.rs:383-390 | `set_line` fails exactly when the line is past the end, with that error; otherwise only index line-1 is replaced, by the new text's lines |
| Splicing.ReplaceLinesSplice | hashline/src/main.rs:391-402 | `replace_lines` is out-of-bounds when either end is past the end, an invalid range when start > end, and otherwise replaces indices start-1 to end-1 and nothing else |
| Splicing.InsertAfterSplice | hashline/src/main.rs:403-410 | `insert_after` fails exactly when the line is past the end; otherwise it inserts at index `line` and replaces nothing |
| Splicing.SetLineOwnText | hashline/src/main.rs:383-390 | setting a line to its own non-empty text changes nothing; the empty text deletes the line |
| Splicing.ReplaceFirstSpec | hashline/src/main.rs:415-420 | first-mode replacement succeeds exactly when the pattern occurs, and substitutes its leftmost occurrence |
| Splicing.ReplaceFirstMode | hashline/src/main.rs:414-425 | first mode fails with "not found" exactly when the old text does not occur in the joined lines; otherwise the result joins to the replaced text |
| Splicing.ReplaceAllModeSpec | hashline/src/main.rs:412-413 | `all` mode never fails, and its result joins to the text with every occurrence replaced |
| Splicing.ReplaceAllModeNoMatch | hashline/src/main.rs:412-413 | with no occurrence, `all` mode gives the lines back, except that no lines come back as one empty line |
| Splicing.ReplaceOnEmpty | hashline/src/main.rs:411-426 | on no lines, `all` mode yields one empty line and first mode fails |
| Splicing.ApplySpecNoNewlines | hashline/src/main.rs:381-428 | one spec applied to newline-free lines leaves none |
| Splicing.ApplySpecsNoNewlines | hashline/src/main.rs:381-428 | whatever the specs, lines that hold no newline keep holding none |
| Splicing.BottomUpSetLines | hashline/src/main.rs:364-390 | two line sets applied higher line first give both splices of the original lines |
| Splicing.ApplySpecStep | hashline/src/main.rs:382-427 | the body of the apply loop yields `ApplySpec` |
| Splicing.ApplyAll | hashline/src/main.rs:381-430 | the apply loop yields `ApplySpecs` |
| Diagnostics.MismatchMessage | hashline/src/main.rs:465-486 | definition: the count, the intro, one block per record, and the quick-fix table; see MessageCount, EntryShowsCurrentRow, QuickFixRowParses, RenderMismatchError |
| Diagnostics.MessageCount | hashline/src/main.rs:467-470 | the message starts with the number of stale anchors, which parses back to that number |
| Diagnostics.EntryShowsCurrentRow | hashline/src/main.rs:472-478 | for an accurate record, each block shows the row the read command would print for that line now |
| Diagnostics.QuickFixRowParses | hashline/src/main.rs:480-483 | both sides of a quick-fix row carry the recorded line; the left side has the expected hash; the right side parses back and resolves |
| Diagnostics.AppendEntries | hashline/src/main.rs:472-478 | the first loop appends one block per record |
| Diagnostics.AppendQuickFixRows | hashline/src/main.rs:480-483 | the second loop appends one quick-fix row per record |
| Diagnostics.RenderMismatchError | hashline/src/main.rs:465-486 | the rendering method yields `MismatchMessage` |
| Engine.ApplyEdits | hashline/src/main.rs:271-431 | definition: the staged engine; see ApplyEditsSucceeds, ApplyEditsRefusesEmptyText, ApplyEditsRefusesStale, SetLinesCommute |
| Engine.ApplyHashlineEdits | hashline/src/main.rs:271-431 | the staged method yields `ApplyEdits`, and an empty batch returns the lines unchanged |
| Engine.ApplyEditsSucceeds | hashline/src/main.rs:294-379 | a batch succeeds only if every edit parsed to its own spec, every anchor validated and resolved with nothing stale, and the result is those specs applied in sorted order |
| Engine.ApplyEditsRefusesEmptyText | hashline/src/main.rs:323-331 | an empty insertion text or an empty `old_text` refuses the whole batch |
| Engine.ApplyEditsRefusesStale | hashline/src/main.rs:360-362 | stale anchors refuse the batch, with accurate records and the rendered message |
| Engine.SetLineByFreshAnchor | hashline/src/main.rs:271-431 | setting a line through the anchor the read command prints for it replaces exactly that line |
| Engine.SetLineRelocated | hashline/src/main.rs:456-459 | setting a line through a stale anchor whose hash exactly one line carries edits that line |
| Engine.SetLinesCommute | hashline/src/main.rs:364-390 | two line replacements through fresh anchors at different lines give the same file in either declared order, namely both splices of the original lines |
| Cli.EditOutcome | hashline/src/main.rs:136-174 | definition: detect, normalise, split, run the engine, refuse an unchanged result, write back; see NoEditsNoChanges, SameTextNoChanges, RunEdit |
| Cli.WrittenText | hashline/src/main.rs:170-174 | definition: join, final newline, line endings; see WrittenTextReadsBack |
| Cli.RunEdit | hashline/src/main.rs:136-175 | the edit path of `main`, joining and restoring the endings as `main` does, yields `EditOutcome` |
| Cli.NoEditsNoChanges | hashline/src/main.rs:166-168 | an empty batch is refused as making no change |
| Cli.SameTextNoChanges | hashline/src/main.rs:166-168 | setting a non-empty line to its own text through its fresh anchor is refused as making no change |
| Cli.WrittenTextReadsBack | hashline/src/main.rs:170-174 | the written text reads back as the new lines (for newline- and CR-free lines whose last line is not an empty one left without a final newline) |
| Results.MapResultOk | hashline/src/main.rs:307-342 | a loop that aborts on the first error succeeds exactly when every step succeeds, with the results in order |
| Results.MapResultFirstError | hashline/src/main.rs:307-342 | such a loop fails with the error of the first failing step |

## Left out

- Argument parsing with clap, file reads and writes, and all `println!` and
  `eprintln!` output in `main` are left out. `Cli.EditOutcome` takes the
  file's text and the decoded edits, and returns the text to write or the
  error.
- JSON decoding by serde, and `parse_edits_payload`, are left out. The
  model starts from an already decoded `Specs.Edit`.
- The internals of xxh32 are left out. It is foreign code, so it is the
  `Hasher` parameter.
- The read command's offset/limit printing loop (hashline/src/main.rs:104-127)
  is left out, because it only writes to stdout. Its row format is `Diagnostics.ReadRow`.
- `render_basic_diff` and the `--preview` output are left out, because they only write to stderr.
- UTF-8 byte offsets are left out. Strings are `seq<char>`, and `find` and
  slicing are by character, which does not change what matches.
- `HashMap` iteration order is left out. `unique` depends only on the
  counts and the first occurrences, so it is a Dafny `map`. The second
  loop visits keys in an arbitrary order.
- The unused `idx` paired with each parsed spec is dropped.
- `usize` bounds appear only where the source can hit them: parsing the
  line number of an anchor. Line counts and line numbers elsewhere are
  unbounded.
- `Ordering.SortSpecs`: `sort_by` is library code, so it is modelled as a
  function (a stable insertion sort), not as an in-place sort of the
  `parsed` vector. Its order, permutation and stability are proved as lemmas.
- `LineEndings.SplitPreserveLastEmpty` is modelled as a function. The
  vector `pop` is a single conditional drop of the last piece.
- `Strings.IsWhitespace` states Rust's `char::is_whitespace` set (the Unicode
  White_Space property) concretely. It is not left abstract.
- `Relocation.ValidateOrRelocate` returns the new anchor and mismatch list
  instead of writing through `&mut`. `Relocation.ValidateAll` performs the
  in-place rewrite of the specs.
- `Engine.SetLineByFreshAnchor` and `Engine.SetLineRelocated` are stated for
  a batch of one edit.
