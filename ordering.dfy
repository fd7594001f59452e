/** The bottom-up order in which `apply_hashline_edits` applies the
    validated specs: a stable sort, descending on the key `(line,
    precedence)`. */
module Ordering {
  import opened Specs

  /** The sort key: the anchor line (a range by its end), then 0 for a
      replacement and 1 for an insertion; text replacements get `(0, 9)`. */
  function SortKey(p: ParsedSpec): (nat, nat) {
    match p
    case Single(r, _) => (r.line as nat, 0)
    case Range(_, end, _) => (end.line as nat, 0)
    case Insert(after, _) => (after.line as nat, 1)
    case ReplaceText(_, _, _) => (0, 9)
  }

  /** The lexicographic order on keys (the order of Rust tuples). */
  predicate KeyLt(a: (nat, nat), b: (nat, nat)) {
    a.0 < b.0 || (a.0 == b.0 && a.1 < b.1)
  }

  /** No spec is followed by one with a larger key. */
  predicate Descending(s: seq<ParsedSpec>) {
    forall i, j :: 0 <= i < j < |s| ==> !KeyLt(SortKey(s[i]), SortKey(s[j]))
  }

  /** The specs with key `k`, in their order in `s`. */
  function WithKey(s: seq<ParsedSpec>, k: (nat, nat)): seq<ParsedSpec> {
    if s == [] then []
    else (if SortKey(s[0]) == k then [s[0]] else []) + WithKey(s[1..], k)
  }

  /** Insert `x` after every element whose key is at least `x`'s. */
  function InsertSorted(x: ParsedSpec, s: seq<ParsedSpec>): seq<ParsedSpec> {
    if s == [] then [x]
    else if KeyLt(SortKey(s[0]), SortKey(x)) then [x] + s
    else [s[0]] + InsertSorted(x, s[1..])
  }

  /** `parsed.sort_by(|a, b| key(b).cmp(&key(a)))`: Rust's `sort_by` is
      stable, which this insertion sort also is. */
  function SortSpecs(s: seq<ParsedSpec>): seq<ParsedSpec> {
    if s == [] then [] else InsertSorted(s[|s| - 1], SortSpecs(s[..|s| - 1]))
  }

  lemma {:induction false} WithKeyNone(s: seq<ParsedSpec>, k: (nat, nat))
    requires forall i :: 0 <= i < |s| ==> SortKey(s[i]) != k
    ensures WithKey(s, k) == []
  {
    if s != [] {
      WithKeyNone(s[1..], k);
    }
  }

  lemma {:induction false} InsertSortedMultiset(x: ParsedSpec, s: seq<ParsedSpec>)
    ensures multiset(InsertSorted(x, s)) == multiset(s) + multiset{x}
  {
    if s != [] && !KeyLt(SortKey(s[0]), SortKey(x)) {
      InsertSortedMultiset(x, s[1..]);
      assert s == [s[0]] + s[1..];
    }
  }

  /** No spec of `s` has a key above `k`. */
  predicate AtMost(s: seq<ParsedSpec>, k: (nat, nat)) {
    forall i :: 0 <= i < |s| ==> !KeyLt(k, SortKey(s[i]))
  }

  lemma DescendingTail(s: seq<ParsedSpec>)
    requires Descending(s) && s != []
    ensures Descending(s[1..]) && AtMost(s[1..], SortKey(s[0]))
  {
    forall i, j | 0 <= i < j < |s[1..]| ensures !KeyLt(SortKey(s[1..][i]), SortKey(s[1..][j])) {
      assert s[1..][i] == s[i + 1] && s[1..][j] == s[j + 1];
    }
    forall i | 0 <= i < |s[1..]| ensures !KeyLt(SortKey(s[0]), SortKey(s[1..][i])) {
      assert s[1..][i] == s[i + 1];
    }
  }

  lemma DescendingCons(a: ParsedSpec, t: seq<ParsedSpec>)
    requires Descending(t) && AtMost(t, SortKey(a))
    ensures Descending([a] + t)
  {
    var r := [a] + t;
    forall i, j | 0 <= i < j < |r| ensures !KeyLt(SortKey(r[i]), SortKey(r[j])) {
      assert r[j] == t[j - 1];
      if i > 0 {
        assert r[i] == t[i - 1];
      }
    }
  }

  lemma {:induction false} InsertSortedAtMost(x: ParsedSpec, s: seq<ParsedSpec>, k: (nat, nat))
    requires AtMost(s, k) && !KeyLt(k, SortKey(x))
    ensures AtMost(InsertSorted(x, s), k)
  {
    if s != [] && !KeyLt(SortKey(s[0]), SortKey(x)) {
      assert AtMost(s[1..], k) by {
        forall i | 0 <= i < |s[1..]| ensures !KeyLt(k, SortKey(s[1..][i])) {
          assert s[1..][i] == s[i + 1];
        }
      }
      InsertSortedAtMost(x, s[1..], k);
      var r := InsertSorted(x, s);
      forall i | 0 <= i < |r| ensures !KeyLt(k, SortKey(r[i])) {
        if i > 0 {
          assert r[i] == InsertSorted(x, s[1..])[i - 1];
        }
      }
    }
  }

  lemma {:induction false} InsertSortedDescending(x: ParsedSpec, s: seq<ParsedSpec>)
    requires Descending(s)
    ensures Descending(InsertSorted(x, s))
  {
    if s == [] {
    } else if KeyLt(SortKey(s[0]), SortKey(x)) {
      DescendingTail(s);
      assert AtMost(s, SortKey(x)) by {
        forall i | 0 <= i < |s| ensures !KeyLt(SortKey(x), SortKey(s[i])) {
          if i > 0 {
            assert s[i] == s[1..][i - 1];
          }
        }
      }
      DescendingCons(x, s);
    } else {
      DescendingTail(s);
      InsertSortedDescending(x, s[1..]);
      InsertSortedAtMost(x, s[1..], SortKey(s[0]));
      DescendingCons(s[0], InsertSorted(x, s[1..]));
    }
  }

  lemma {:induction false} InsertSortedWithKey(x: ParsedSpec, s: seq<ParsedSpec>, k: (nat, nat))
    requires Descending(s)
    ensures WithKey(InsertSorted(x, s), k) == WithKey(s, k) + (if SortKey(x) == k then [x] else [])
  {
    var r := InsertSorted(x, s);
    if s == [] {
      assert [x][1..] == [];
    } else if KeyLt(SortKey(s[0]), SortKey(x)) {
      assert r[1..] == s;
      if SortKey(x) == k {
        forall i | 0 <= i < |s| ensures SortKey(s[i]) != k {
          if i > 0 {
            assert !KeyLt(SortKey(s[0]), SortKey(s[i]));
          }
        }
        WithKeyNone(s, k);
      }
    } else {
      DescendingTail(s);
      InsertSortedWithKey(x, s[1..], k);
      assert r[1..] == InsertSorted(x, s[1..]);
    }
  }

  /** The sort orders the specs by descending key and keeps every spec. */
  lemma {:induction false} SortSpecsSorted(s: seq<ParsedSpec>)
    ensures Descending(SortSpecs(s))
    ensures multiset(SortSpecs(s)) == multiset(s)
  {
    if s != [] {
      var init := s[..|s| - 1];
      var x := s[|s| - 1];
      SortSpecsSorted(init);
      InsertSortedMultiset(x, SortSpecs(init));
      InsertSortedDescending(x, SortSpecs(init));
      assert s == init + [x];
    }
  }

  /** The sort is stable: specs with equal keys keep their original order. */
  lemma {:induction false} SortSpecsStable(s: seq<ParsedSpec>, k: (nat, nat))
    ensures WithKey(SortSpecs(s), k) == WithKey(s, k)
  {
    if s != [] {
      var init := s[..|s| - 1];
      var x := s[|s| - 1];
      SortSpecsSorted(init);
      SortSpecsStable(init, k);
      assert s == init + [x];
      WithKeySnoc(init, x, k);
      InsertSortedWithKey(x, SortSpecs(init), k);
    }
  }

  lemma {:induction false} WithKeySnoc(s: seq<ParsedSpec>, x: ParsedSpec, k: (nat, nat))
    ensures WithKey(s + [x], k) == WithKey(s, k) + (if SortKey(x) == k then [x] else [])
  {
    if s == [] {
      assert [x][1..] == [];
    } else {
      WithKeySnoc(s[1..], x, k);
      assert (s + [x])[1..] == s[1..] + [x];
    }
  }

  // ---------------------------------------------------------------------
  // What the order means for application

  /** In a descending sequence the anchored specs come in non-increasing
      order of their key line, and every text replacement comes after every
      anchored spec. */
  lemma DescendingLines(s: seq<ParsedSpec>, i: nat, j: nat)
    requires Descending(s) && i < j < |s|
    ensures SortKey(s[j]).0 <= SortKey(s[i]).0
    ensures s[i].ReplaceText? ==> s[j].ReplaceText?
  {
    assert !KeyLt(SortKey(s[i]), SortKey(s[j]));
  }

  /** At the same line, an insertion comes before a line replacement or a
      range replacement ending there: it is applied first. */
  lemma InsertBeforeReplaceAtSameLine(s: seq<ParsedSpec>, i: nat, j: nat)
    requires Descending(s) && i < |s| && j < |s|
    requires s[i].Single? || s[i].Range?
    requires s[j].Insert? && SortKey(s[j]).0 == SortKey(s[i]).0
    ensures j < i
  {
  }

  /** The text replacements are exactly the specs with key `(0, 9)`, so the
      sort keeps them in the order the edits gave them. */
  lemma ReplaceTextOrderKept(s: seq<ParsedSpec>)
    ensures WithKey(SortSpecs(s), (0, 9)) == WithKey(s, (0, 9))
    ensures forall p :: p in WithKey(s, (0, 9)) <==> p in s && p.ReplaceText?
  {
    SortSpecsStable(s, (0, 9));
    WithKeyMembers(s, (0, 9));
  }

  lemma {:induction false} WithKeyMembers(s: seq<ParsedSpec>, k: (nat, nat))
    ensures forall p :: p in WithKey(s, k) <==> p in s && SortKey(p) == k
  {
    if s != [] {
      WithKeyMembers(s[1..], k);
      assert s == [s[0]] + s[1..];
    }
  }

  /** Two specs: the one with the larger key goes first; on equal keys
      the declared order is kept. */
  lemma SortPair(a: ParsedSpec, b: ParsedSpec)
    ensures SortSpecs([a, b]) == if KeyLt(SortKey(a), SortKey(b)) then [b, a] else [a, b]
  {
    assert [a, b][..1] == [a];
    assert [a][..0] == [];
    assert SortSpecs([a]) == [a];
    assert SortSpecs([a, b]) == InsertSorted(b, [a]);
    if !KeyLt(SortKey(a), SortKey(b)) {
      assert [a][1..] == [];
      assert InsertSorted(b, [a]) == [a] + InsertSorted(b, []);
    }
  }

  /** Two specs with different keys are applied in the same order
      whichever order the edits declared them in. */
  lemma SortPairSwap(a: ParsedSpec, b: ParsedSpec)
    requires SortKey(a) != SortKey(b)
    ensures SortSpecs([a, b]) == SortSpecs([b, a])
  {
    SortPair(a, b);
    SortPair(b, a);
  }
}
