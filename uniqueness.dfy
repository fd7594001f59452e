/** The `counts` / `first_seen` / `unique` maps of `apply_hashline_edits`:
    which fingerprints occur exactly once in the file, and where. */
module Uniqueness {
  import opened Results
  import opened Fingerprint

  /** The fingerprint of every line, in order. */
  function LineHashes(lines: seq<string>, xxh: Hasher): (hs: seq<string>)
    ensures |hs| == |lines|
    ensures forall i :: 0 <= i < |lines| ==> hs[i] == LineHash(lines[i], xxh)
  {
    seq(|lines|, i requires 0 <= i < |lines| => LineHash(lines[i], xxh))
  }

  /** How many times `h` occurs in `hs` (the `counts` entry). */
  function Count(hs: seq<string>, h: string): nat {
    if hs == [] then 0
    else Count(hs[..|hs| - 1], h) + (if hs[|hs| - 1] == h then 1 else 0)
  }

  /** The first index of `h` in `hs` (`first_seen`, less one). */
  function IndexOf(hs: seq<string>, h: string): (k: nat)
    requires h in hs
    ensures k < |hs| && hs[k] == h
    ensures forall j :: 0 <= j < k ==> hs[j] != h
  {
    if hs[0] == h then 0 else 1 + IndexOf(hs[1..], h)
  }

  /** The `unique` map: each fingerprint that occurs exactly once, to the
      1-indexed line that carries it. */
  function UniqueLines(hs: seq<string>): map<string, Pos> {
    map h | h in hs && Count(hs, h) == 1 :: IndexOf(hs, h) + 1
  }

  lemma {:induction false} CountZero(hs: seq<string>, h: string)
    ensures Count(hs, h) == 0 <==> h !in hs
  {
    if hs != [] {
      var p := hs[..|hs| - 1];
      CountZero(p, h);
      assert hs == p + [hs[|hs| - 1]];
    }
  }

  /** `counts[h] == 1` exactly when `h` occurs and every occurrence is the
      first one. */
  lemma {:induction false} CountOne(hs: seq<string>, h: string)
    ensures Count(hs, h) == 1 <==>
      h in hs && forall j :: 0 <= j < |hs| && hs[j] == h ==> j == IndexOf(hs, h)
  {
    if hs != [] {
      var p := hs[..|hs| - 1];
      var x := hs[|hs| - 1];
      assert hs == p + [x];
      CountOne(p, h);
      CountZero(p, h);
      if x != h {
        if h in p {
          assert IndexOf(hs, h) == IndexOf(p, h) by {
            var k := IndexOf(p, h);
            assert hs[k] == h;
            assert forall j :: 0 <= j < k ==> hs[j] == p[j];
          }
        }
      } else if h in p {
        var k := IndexOf(p, h);
        assert hs[k] == h && hs[|hs| - 1] == h && k != |hs| - 1;
      }
    }
  }

  /** `h` occurs in `hs` at index `i` and nowhere else. */
  predicate OnlyAt(hs: seq<string>, h: string, i: int) {
    0 <= i < |hs| && hs[i] == h && forall j :: 0 <= j < |hs| && hs[j] == h ==> j == i
  }

  /** A fingerprint is in `unique` exactly when one line carries it, and
      then `unique` names that line. */
  lemma UniqueLinesSpec(hs: seq<string>, h: string)
    ensures h in UniqueLines(hs) ==> OnlyAt(hs, h, UniqueLines(hs)[h] as int - 1)
    ensures forall i :: OnlyAt(hs, h, i) ==> h in UniqueLines(hs) && UniqueLines(hs)[h] == i + 1
  {
    CountOne(hs, h);
    forall i | OnlyAt(hs, h, i) ensures h in UniqueLines(hs) && UniqueLines(hs)[h] == i + 1 {
      assert IndexOf(hs, h) == i;
    }
  }

  lemma CountSnoc(p: seq<string>, x: string, h: string)
    ensures Count(p + [x], h) == Count(p, h) + (if x == h then 1 else 0)
  {
    assert (p + [x])[..|p|] == p;
  }

  lemma IndexOfSnoc(p: seq<string>, x: string, h: string)
    requires h in p || h == x
    ensures h in p ==> IndexOf(p + [x], h) == IndexOf(p, h)
    ensures h !in p ==> IndexOf(p + [x], h) == |p|
  {
    var q := p + [x];
    if h in p {
      var k := IndexOf(p, h);
      assert q[k] == h;
    } else {
      assert q[|p|] == h;
    }
  }

  /** The `counts` map after all of `hs` has been seen. */
  function CountsOf(hs: seq<string>): map<string, nat> {
    map h | h in hs :: Count(hs, h)
  }

  /** The `first_seen` map after all of `hs` has been seen. */
  function FirstSeenOf(hs: seq<string>): map<string, Pos> {
    map h | h in hs :: IndexOf(hs, h) + 1
  }

  /** One more line: its fingerprint's count goes up by one. */
  lemma CountsSnoc(p: seq<string>, x: string)
    ensures CountsOf(p + [x]) == CountsOf(p)[x := (if x in CountsOf(p) then CountsOf(p)[x] else 0) + 1]
  {
    var q := p + [x];
    var l := CountsOf(q);
    var r := CountsOf(p)[x := (if x in CountsOf(p) then CountsOf(p)[x] else 0) + 1];
    assert forall g :: g in q <==> g in p || g == x;
    assert l.Keys == r.Keys;
    forall g | g in l ensures l[g] == r[g] {
      CountSnoc(p, x, g);
      if g == x && x !in p {
        CountZero(p, x);
      }
    }
  }

  /** One more line: it is a first sighting only if its fingerprint is new. */
  lemma FirstSeenSnoc(p: seq<string>, x: string)
    ensures FirstSeenOf(p + [x]) == if x in FirstSeenOf(p) then FirstSeenOf(p) else FirstSeenOf(p)[x := |p| + 1]
  {
    if x in p {
      FirstSeenSnocSeen(p, x);
    } else {
      FirstSeenSnocNew(p, x);
    }
  }

  lemma FirstSeenSnocSeen(p: seq<string>, x: string)
    requires x in p
    ensures FirstSeenOf(p + [x]) == FirstSeenOf(p)
  {
    var q := p + [x];
    var l := FirstSeenOf(q);
    var r := FirstSeenOf(p);
    assert forall g :: g in q <==> g in p;
    assert l.Keys == r.Keys;
    forall g | g in l ensures l[g] == r[g] {
      IndexOfSnoc(p, x, g);
    }
  }

  lemma FirstSeenSnocNew(p: seq<string>, x: string)
    requires x !in p
    ensures FirstSeenOf(p + [x]) == FirstSeenOf(p)[x := |p| + 1]
  {
    var q := p + [x];
    var l := FirstSeenOf(q);
    var r := FirstSeenOf(p)[x := |p| + 1];
    assert forall g :: g in q <==> g in p || g == x;
    assert l.Keys == r.Keys;
    forall g | g in l ensures l[g] == r[g] {
      IndexOfSnoc(p, x, g);
    }
  }

  /** One step of the first loop, on the maps themselves: line `i` is
      counted, and recorded as a first sighting when its fingerprint is new. */
  lemma CountStep(hs: seq<string>, i: nat, h: string, counts: map<string, nat>)
    requires i < |hs| && h == hs[i] && counts == CountsOf(hs[..i])
    ensures counts[h := (if h in counts then counts[h] else 0) + 1] == CountsOf(hs[..i + 1])
  {
    var p := hs[..i];
    assert hs[..i + 1] == p + [h];
    CountsSnoc(p, h);
  }

  lemma FirstSeenStep(hs: seq<string>, i: nat, h: string, firstSeen: map<string, Pos>)
    requires i < |hs| && h == hs[i] && firstSeen == FirstSeenOf(hs[..i])
    ensures (if h in firstSeen then firstSeen else firstSeen[h := i + 1]) == FirstSeenOf(hs[..i + 1])
  {
    var p := hs[..i];
    assert hs[..i + 1] == p + [h];
    FirstSeenSnoc(p, h);
  }

  method CountLines(lines: seq<string>, xxh: Hasher)
    returns (counts: map<string, nat>, firstSeen: map<string, Pos>)
    ensures counts == CountsOf(LineHashes(lines, xxh))
    ensures firstSeen == FirstSeenOf(LineHashes(lines, xxh))
  {
    ghost var hs := LineHashes(lines, xxh);
    counts := map[];
    firstSeen := map[];
    assert hs[..0] == [];
    assert CountsOf([]) == map[] && FirstSeenOf([]) == map[];
    for i := 0 to |lines|
      invariant counts == CountsOf(hs[..i])
      invariant firstSeen == FirstSeenOf(hs[..i])
    {
      var h := ComputeLineHash(lines[i], xxh);
      CountStep(hs, i, h, counts);
      FirstSeenStep(hs, i, h, firstSeen);
      counts := counts[h := (if h in counts then counts[h] else 0) + 1];
      if h !in firstSeen {
        firstSeen := firstSeen[h := i + 1];
      }
    }
    assert hs[..|lines|] == hs;
  }

  /** The `unique` entries taken from the fingerprints in `done`. */
  function UniqueAmong(counts: map<string, nat>, firstSeen: map<string, Pos>, done: set<string>): map<string, Pos> {
    map h | h in done && h in counts && counts[h] == 1 && h in firstSeen :: firstSeen[h]
  }

  lemma UniqueStep(counts: map<string, nat>, firstSeen: map<string, Pos>, done: set<string>, h: string)
    requires h in counts
    ensures UniqueAmong(counts, firstSeen, done + {h})
      == if counts[h] == 1 && h in firstSeen then UniqueAmong(counts, firstSeen, done)[h := firstSeen[h]]
         else UniqueAmong(counts, firstSeen, done)
  {
    var l := UniqueAmong(counts, firstSeen, done + {h});
    var r := if counts[h] == 1 && h in firstSeen then UniqueAmong(counts, firstSeen, done)[h := firstSeen[h]]
             else UniqueAmong(counts, firstSeen, done);
    assert l.Keys == r.Keys;
  }

  /** Once every counted fingerprint has been looked at, `unique` is
      `UniqueLines`. */
  lemma UniqueAmongAll(hs: seq<string>)
    ensures UniqueAmong(CountsOf(hs), FirstSeenOf(hs), CountsOf(hs).Keys) == UniqueLines(hs)
  {
    var l := UniqueAmong(CountsOf(hs), FirstSeenOf(hs), CountsOf(hs).Keys);
    var r := UniqueLines(hs);
    assert l.Keys == r.Keys;
  }

  /** The second loop of `apply_hashline_edits`: every fingerprint counted
      exactly once goes into `unique` with the line it was first seen on. */
  method SelectUnique(counts: map<string, nat>, firstSeen: map<string, Pos>)
    returns (unique: map<string, Pos>)
    ensures unique == UniqueAmong(counts, firstSeen, counts.Keys)
  {
    unique := map[];
    var rest := counts.Keys;
    assert UniqueAmong(counts, firstSeen, {}) == map[];
    assert counts.Keys - rest == {};
    while rest != {}
      invariant rest <= counts.Keys
      invariant unique == UniqueAmong(counts, firstSeen, counts.Keys - rest)
      decreases rest
    {
      var h :| h in rest;
      assert counts.Keys - (rest - {h}) == (counts.Keys - rest) + {h};
      UniqueStep(counts, firstSeen, counts.Keys - rest, h);
      if counts[h] == 1 && h in firstSeen {
        unique := unique[h := firstSeen[h]];
      }
      rest := rest - {h};
    }
    assert counts.Keys - rest == counts.Keys;
  }

  /** Both loops: the `unique` map of the file's lines. */
  method BuildUnique(lines: seq<string>, xxh: Hasher) returns (unique: map<string, Pos>)
    ensures unique == UniqueLines(LineHashes(lines, xxh))
  {
    var counts, firstSeen := CountLines(lines, xxh);
    unique := SelectUnique(counts, firstSeen);
    UniqueAmongAll(LineHashes(lines, xxh));
  }
}
