/** The pieces of Rust's `str` API the engine relies on, stated on
    `seq<char>`: `split`/`join` on one character, `find`, `replace`, `trim`,
    `ends_with`, `to_ascii_lowercase`, `usize` parsing and decimal
    formatting. */
module Strings {
  import opened Results

  /** Rust's `char::is_whitespace`: the Unicode White_Space property. */
  predicate IsWhitespace(c: char) {
    var n := c as int;
    (9 <= n <= 13) || n == 0x20 || n == 0x85 || n == 0xA0 || n == 0x1680
    || (0x2000 <= n <= 0x200A) || n == 0x2028 || n == 0x2029 || n == 0x202F
    || n == 0x205F || n == 0x3000
  }

  predicate EndsWith(s: string, c: char) {
    |s| > 0 && s[|s| - 1] == c
  }

  // ---------------------------------------------------------------------
  // split / join on a single character

  /** `s.split(c)`: the maximal pieces of `s` between occurrences of `c`;
      there is always at least one piece. */
  function Split(s: string, c: char): (parts: seq<string>)
    ensures |parts| >= 1
    ensures forall i :: 0 <= i < |parts| ==> c !in parts[i]
  {
    if s == [] then [""]
    else
      var rest := Split(s[1..], c);
      if s[0] == c then [""] + rest
      else [[s[0]] + rest[0]] + rest[1..]
  }

  /** `parts.join(c)`. */
  function Join(parts: seq<string>, c: char): string {
    if |parts| == 0 then ""
    else if |parts| == 1 then parts[0]
    else parts[0] + [c] + Join(parts[1..], c)
  }

  function CountChar(s: string, c: char): nat {
    if s == [] then 0 else (if s[0] == c then 1 else 0) + CountChar(s[1..], c)
  }

  /** Splitting yields one more piece than there are separators. */
  lemma {:induction false} SplitLength(s: string, c: char)
    ensures |Split(s, c)| == CountChar(s, c) + 1
  {
    if s != [] {
      SplitLength(s[1..], c);
    }
  }

  /** Joining the pieces of a split gives back the string. */
  lemma {:induction false} JoinSplit(s: string, c: char)
    ensures Join(Split(s, c), c) == s
  {
    if s != [] {
      JoinSplit(s[1..], c);
      var rest := Split(s[1..], c);
      if s[0] == c {
        assert Split(s, c) == [""] + rest;
        assert ([""] + rest)[1..] == rest;
      } else {
        var parts := [[s[0]] + rest[0]] + rest[1..];
        assert Split(s, c) == parts;
        if |rest| > 1 {
          assert parts[1..] == rest[1..];
          assert Join(rest, c) == rest[0] + [c] + Join(rest[1..], c);
        }
      }
    }
  }

  lemma {:induction false} SplitNoSeparator(s: string, c: char)
    requires c !in s
    ensures Split(s, c) == [s]
  {
    if s != [] {
      assert c !in s[1..] by {
        forall k | 0 <= k < |s[1..]| ensures s[1..][k] != c {
          assert s[1..][k] == s[k + 1];
        }
      }
      SplitNoSeparator(s[1..], c);
      assert [s[0]] + s[1..] == s;
    }
  }

  lemma {:induction false} SplitAfterSegment(a: string, b: string, c: char)
    requires c !in a
    ensures Split(a + [c] + b, c) == [a] + Split(b, c)
  {
    if a == [] {
      assert a + [c] + b == [c] + b;
      assert ([c] + b)[1..] == b;
    } else {
      assert c !in a[1..] by {
        forall k | 0 <= k < |a[1..]| ensures a[1..][k] != c {
          assert a[1..][k] == a[k + 1];
        }
      }
      SplitAfterSegment(a[1..], b, c);
      assert (a + [c] + b)[1..] == a[1..] + [c] + b;
      assert [a[0]] + a[1..] == a;
    }
  }

  /** Splitting a join of separator-free pieces gives back the pieces. */
  lemma {:induction false} SplitJoin(parts: seq<string>, c: char)
    requires |parts| >= 1
    requires forall i :: 0 <= i < |parts| ==> c !in parts[i]
    ensures Split(Join(parts, c), c) == parts
  {
    if |parts| == 1 {
      SplitNoSeparator(parts[0], c);
    } else {
      SplitJoin(parts[1..], c);
      SplitAfterSegment(parts[0], Join(parts[1..], c), c);
      assert parts == [parts[0]] + parts[1..];
    }
  }

  // ---------------------------------------------------------------------
  // find / replace

  predicate MatchAt(s: string, p: string, k: nat) {
    k + |p| <= |s| && s[k..k + |p|] == p
  }

  lemma MatchAtTail(s: string, p: string, k: nat)
    requires |s| > 0
    ensures MatchAt(s, p, k + 1) <==> MatchAt(s[1..], p, k)
  {
    if k + 1 + |p| <= |s| {
      assert s[1..][k..k + |p|] == s[k + 1..k + 1 + |p|];
    }
  }

  /** `s.find(p)`: a position at which `p` occurs (the leftmost one, see
      FindLeftmost). */
  function Find(s: string, p: string): (r: Option<nat>)
    ensures r.Some? ==> MatchAt(s, p, r.value)
    decreases |s|
  {
    if |s| < |p| then None
    else if s[..|p|] == p then Some(0)
    else
      match Find(s[1..], p)
      case None => None
      case Some(k) => Some(k + 1)
  }

  /** `find` reports no occurrence before the one it returns, and returns
      nothing only when there is no occurrence at all. */
  lemma {:induction false} FindLeftmost(s: string, p: string)
    ensures Find(s, p).Some? ==> forall k: nat :: k < Find(s, p).value ==> !MatchAt(s, p, k)
    ensures Find(s, p).None? ==> forall k: nat :: k <= |s| ==> !MatchAt(s, p, k)
    decreases |s|
  {
    if |s| < |p| {
    } else if s[..|p|] == p {
    } else {
      assert !MatchAt(s, p, 0) by { assert s[0..|p|] == s[..|p|]; }
      FindLeftmost(s[1..], p);
      forall k: nat | 1 <= k <= |s| ensures MatchAt(s, p, k) <==> MatchAt(s[1..], p, k - 1) {
        MatchAtTail(s, p, k - 1);
      }
    }
  }

  /** Wherever `p` is found, its first character is in `s`. */
  lemma FindFirstChar(s: string, p: string)
    requires |p| > 0 && Find(s, p).Some?
    ensures p[0] in s
  {
    var k := Find(s, p).value;
    assert s[k] == s[k..k + |p|][0];
  }

  predicate Contains(s: string, p: string) {
    Find(s, p).Some?
  }

  /** `s.replace(p, t)`: every non-overlapping occurrence of `p`, scanning
      left to right, is replaced by `t` (for an empty `p`, Rust inserts `t`
      at every character boundary). */
  function ReplaceAll(s: string, p: string, t: string): string
    decreases |s|
  {
    if |p| == 0 then (if s == [] then t else t + [s[0]] + ReplaceAll(s[1..], p, t))
    else if |s| < |p| then s
    else if s[..|p|] == p then t + ReplaceAll(s[|p|..], p, t)
    else [s[0]] + ReplaceAll(s[1..], p, t)
  }

  /** `replace` is a left-to-right scan: it leaves a string without `p`
      alone ... */
  lemma {:induction false} ReplaceAllNoMatch(s: string, p: string, t: string)
    requires |p| > 0 && Find(s, p).None?
    ensures ReplaceAll(s, p, t) == s
    decreases |s|
  {
    if |s| >= |p| {
      ReplaceAllNoMatch(s[1..], p, t);
      assert s == [s[0]] + s[1..];
    }
  }

  /** ... and otherwise keeps everything before the leftmost occurrence,
      substitutes that occurrence, and carries on after it. */
  lemma {:induction false} ReplaceAllAtFind(s: string, p: string, t: string, k: nat)
    requires |p| > 0 && Find(s, p) == Some(k)
    ensures ReplaceAll(s, p, t) == s[..k] + t + ReplaceAll(s[k + |p|..], p, t)
    decreases |s|
  {
    assert |s| >= |p|;
    if s[..|p|] == p {
      assert k == 0;
      assert s[..k] + t == t && s[k + |p|..] == s[|p|..];
    } else {
      var rest := s[1..];
      var k': nat := k - 1;
      assert Find(rest, p) == Some(k');
      ReplaceAllAtFind(rest, p, t, k');
      var after := s[k + |p|..];
      assert rest[k' + |p|..] == after;
      var tail := ReplaceAll(after, p, t);
      ReplaceAllSame(rest[k' + |p|..], after, p, t);
      TakeCons(s, k);
      ReplaceAllSkip(s, p, t);
      ConsAssoc(s[0], rest[..k'], t, tail);
    }
  }

  lemma TakeCons(s: string, k: nat)
    requires 0 < k <= |s|
    ensures s[..k] == [s[0]] + s[1..][..k - 1]
  {
  }

  lemma ReplaceAllSame(a: string, b: string, p: string, t: string)
    requires a == b
    ensures ReplaceAll(a, p, t) == ReplaceAll(b, p, t)
  {
  }

  /** Where `p` does not start `s`, `replace` keeps the first character. */
  lemma ReplaceAllSkip(s: string, p: string, t: string)
    requires |p| > 0 && |s| >= |p| && s[..|p|] != p
    ensures ReplaceAll(s, p, t) == [s[0]] + ReplaceAll(s[1..], p, t)
  {
  }

  lemma ConsAssoc(c: char, a: string, t: string, b: string)
    ensures [c] + (a + t + b) == ([c] + a) + t + b
  {
  }

  /** Replacing a pattern by itself changes nothing. */
  lemma {:induction false} ReplaceAllSelf(s: string, p: string)
    requires |p| > 0
    ensures ReplaceAll(s, p, p) == s
    decreases |s|
  {
    if |s| < |p| {
    } else if s[..|p|] == p {
      ReplaceAllSelf(s[|p|..], p);
      assert s == s[..|p|] + s[|p|..];
    } else {
      ReplaceAllSelf(s[1..], p);
      assert s == [s[0]] + s[1..];
    }
  }

  // ---------------------------------------------------------------------
  // trim / to_ascii_lowercase

  /** `trim_start`: drops the leading whitespace and nothing else. */
  function TrimStart(s: string): (r: string)
    ensures |r| <= |s| && r == s[|s| - |r|..]
    ensures forall k :: 0 <= k < |s| - |r| ==> IsWhitespace(s[k])
    ensures r != [] ==> !IsWhitespace(r[0])
  {
    if s != [] && IsWhitespace(s[0]) then
      var r := TrimStart(s[1..]);
      assert forall k :: 1 <= k < |s| - |r| ==> s[k] == s[1..][k - 1];
      r
    else s
  }

  /** `trim_end`: drops the trailing whitespace and nothing else. */
  function TrimEnd(s: string): (r: string)
    ensures |r| <= |s| && r == s[..|r|]
    ensures forall k :: |r| <= k < |s| ==> IsWhitespace(s[k])
    ensures r != [] ==> !IsWhitespace(r[|r| - 1])
  {
    if s != [] && IsWhitespace(s[|s| - 1]) then TrimEnd(s[..|s| - 1]) else s
  }

  /** `trim`. */
  function Trim(s: string): string {
    TrimEnd(TrimStart(s))
  }

  /** Trimming empties exactly the all-whitespace strings. */
  lemma TrimEmpty(s: string)
    ensures Trim(s) == [] <==> forall k :: 0 <= k < |s| ==> IsWhitespace(s[k])
  {
    var a := TrimStart(s);
    if !forall k :: 0 <= k < |s| ==> IsWhitespace(s[k]) {
      var k :| 0 <= k < |s| && !IsWhitespace(s[k]);
      assert a != [];
      assert !IsWhitespace(a[0]);
    }
  }

  /** A string with no whitespace at either end is its own trim. */
  lemma TrimUnchanged(s: string)
    requires s != [] ==> !IsWhitespace(s[0]) && !IsWhitespace(s[|s| - 1])
    ensures Trim(s) == s
  {
  }

  function LowerChar(c: char): char {
    if 'A' <= c <= 'Z' then (c as int + 32) as char else c
  }

  /** `to_ascii_lowercase`. */
  function AsciiLower(s: string): (r: string)
    ensures |r| == |s|
    ensures forall i :: 0 <= i < |s| ==> r[i] == LowerChar(s[i])
  {
    seq(|s|, i requires 0 <= i < |s| => LowerChar(s[i]))
  }

  // ---------------------------------------------------------------------
  // decimal numbers (usize Display and FromStr)

  predicate IsDigit(c: char) {
    '0' <= c <= '9'
  }

  predicate AllDigits(s: string) {
    forall i :: 0 <= i < |s| ==> IsDigit(s[i])
  }

  function DigitChar(d: nat): (c: char)
    requires d < 10
    ensures IsDigit(c)
  {
    (48 + d) as char
  }

  function DigitValue(c: char): nat
    requires IsDigit(c)
  {
    c as int - 48
  }

  /** `format!("{}", n)`: decimal digits, most significant first, no sign. */
  function NatToDecimal(n: nat): (r: string)
    ensures |r| >= 1 && AllDigits(r)
  {
    if n < 10 then [DigitChar(n)] else NatToDecimal(n / 10) + [DigitChar(n % 10)]
  }

  function DecimalValue(s: string): nat
    requires AllDigits(s)
  {
    if s == [] then 0 else DecimalValue(s[..|s| - 1]) * 10 + DigitValue(s[|s| - 1])
  }

  /** The range of Rust's `usize` on a 64-bit target. */
  const UsizeBound: nat := 0x1_0000_0000_0000_0000

  /** `s.parse::<usize>()`: an optional '+', then one or more ASCII digits
      whose value fits in 64 bits. Surrounding whitespace is not accepted. */
  function ParseUsize(s: string): (r: Option<nat>)
    ensures r.Some? ==> r.value < UsizeBound
  {
    var digits := if |s| > 0 && s[0] == '+' then s[1..] else s;
    if |digits| == 0 || !AllDigits(digits) then None
    else if DecimalValue(digits) < UsizeBound then Some(DecimalValue(digits))
    else None
  }

  lemma {:induction false} DecimalRoundTrip(n: nat)
    ensures DecimalValue(NatToDecimal(n)) == n
  {
    if n >= 10 {
      DecimalRoundTrip(n / 10);
      var s := NatToDecimal(n);
      assert s[..|s| - 1] == NatToDecimal(n / 10);
    }
  }

  /** Parsing a formatted `usize` gives the number back. */
  lemma ParseUsizeDecimal(n: nat)
    requires n < UsizeBound
    ensures ParseUsize(NatToDecimal(n)) == Some(n)
  {
    DecimalRoundTrip(n);
  }
}
