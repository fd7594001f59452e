/** `compute_line_hash`: the whitespace-insensitive fingerprint of one
    line, four lowercase hex digits holding the low 16 bits of xxh32 of the
    line with every whitespace character removed. */
module Fingerprint {
  import opened Strings

  /** xxh32 with seed 0, applied to the stripped line. It is foreign code,
      so the model takes it as a parameter and proves everything for every
      such function. */
  type Hasher = seq<char> -> bv32

  /** The characters the fingerprint ignores: '\r' and all whitespace. */
  predicate Dropped(c: char) {
    c == '\r' || IsWhitespace(c)
  }

  /** The `normalized` string the loop of `compute_line_hash` builds. */
  function Strip(s: string): (r: string)
    ensures |r| <= |s|
    ensures forall i :: 0 <= i < |r| ==> !Dropped(r[i])
  {
    if s == [] then []
    else Strip(s[..|s| - 1]) + (if Dropped(s[|s| - 1]) then [] else [s[|s| - 1]])
  }

  lemma {:induction false} StripConcat(a: string, b: string)
    ensures Strip(a + b) == Strip(a) + Strip(b)
    decreases |b|
  {
    if b != [] {
      var b' := b[..|b| - 1];
      assert (a + b)[..|a + b| - 1] == a + b';
      StripConcat(a, b');
    } else {
      assert a + b == a;
    }
  }

  /** Stripping a string that has nothing to strip leaves it alone. */
  lemma {:induction false} StripClean(s: string)
    requires forall i :: 0 <= i < |s| ==> !Dropped(s[i])
    ensures Strip(s) == s
  {
    if s != [] {
      StripClean(s[..|s| - 1]);
      assert s == s[..|s| - 1] + [s[|s| - 1]];
    }
  }

  // ---------------------------------------------------------------------
  // `format!("{:04x}", ..)`

  predicate IsLowerHex(c: char) {
    '0' <= c <= '9' || 'a' <= c <= 'f'
  }

  function HexDigit(d: nat): (c: char)
    requires d < 16
    ensures IsLowerHex(c)
  {
    if d < 10 then (48 + d) as char else (87 + d) as char
  }

  function HexDigitValue(c: char): nat
    requires IsLowerHex(c)
  {
    if c <= '9' then c as int - 48 else c as int - 87
  }

  function Pow16(n: nat): nat {
    if n == 0 then 1 else 16 * Pow16(n - 1)
  }

  /** The lowest `width` hex digits of `v`, most significant first,
      zero-padded. */
  function Hex(v: nat, width: nat): (r: string)
    ensures |r| == width
    ensures forall i :: 0 <= i < |r| ==> IsLowerHex(r[i])
  {
    if width == 0 then [] else Hex(v / 16, width - 1) + [HexDigit(v % 16)]
  }

  function HexValue(s: string): nat
    requires forall i :: 0 <= i < |s| ==> IsLowerHex(s[i])
  {
    if s == [] then 0 else HexValue(s[..|s| - 1]) * 16 + HexDigitValue(s[|s| - 1])
  }

  /** Zero-padded hex of a number that fits the width reads back as that
      number. */
  lemma {:induction false} HexRoundTrip(v: nat, width: nat)
    requires v < Pow16(width)
    ensures HexValue(Hex(v, width)) == v
  {
    if width > 0 {
      assert v / 16 < Pow16(width - 1);
      HexRoundTrip(v / 16, width - 1);
      var r := Hex(v, width);
      assert r[..|r| - 1] == Hex(v / 16, width - 1);
    }
  }

  /** `(h as u32) & 0xffff`: the low 16 bits, taken as the remainder by
      2^16. */
  function Low16(h: bv32): (v: nat)
    ensures v < 0x1_0000
  {
    (h as nat) % 0x1_0000
  }

  /** `compute_line_hash`: exactly four lowercase hex digits, spelling the
      low 16 bits of the hash of the stripped line. */
  function LineHash(line: string, xxh: Hasher): (h: string)
    ensures |h| == 4
    ensures forall i :: 0 <= i < |h| ==> IsLowerHex(h[i])
    ensures HexValue(h) == Low16(xxh(Strip(line)))
  {
    var v := Low16(xxh(Strip(line)));
    HexRoundTrip(v, 4);
    Hex(v, 4)
  }

  /** The loop of `compute_line_hash`, character by character. */
  method ComputeLineHash(line: string, xxh: Hasher) returns (h: string)
    ensures h == LineHash(line, xxh)
  {
    var normalized := "";
    for i := 0 to |line|
      invariant normalized == Strip(line[..i])
    {
      var ch := line[i];
      assert line[..i + 1][..i] == line[..i];
      if ch == '\r' {
        continue;
      }
      if IsWhitespace(ch) {
        continue;
      }
      normalized := normalized + [ch];
    }
    assert line[..|line|] == line;
    var truncated := Low16(xxh(normalized));
    h := Hex(truncated, 4);
  }

  /** The fingerprint of a line is the fingerprint of its stripped form. */
  lemma StripInvariant(line: string, xxh: Hasher)
    ensures LineHash(Strip(line), xxh) == LineHash(line, xxh)
  {
    StripClean(Strip(line));
  }

  /** Adding or removing one whitespace character anywhere in a line (a
      re-indentation, say) leaves its fingerprint unchanged. */
  lemma WhitespaceInsensitive(a: string, w: char, b: string, xxh: Hasher)
    requires Dropped(w)
    ensures LineHash(a + [w] + b, xxh) == LineHash(a + b, xxh)
  {
    StripConcat(a + [w], b);
    StripConcat(a, [w]);
    StripConcat(a, b);
    assert Strip([w]) == [] by { assert [w][..0] == []; }
    assert Strip(a + [w]) == Strip(a);
    assert Strip(a + [w] + b) == Strip(a + b);
  }
}
