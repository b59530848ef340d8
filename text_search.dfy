/**
 * The global regular-expression scan `while ((match = regex.exec(text)))` of
 * the Flash motion, for a search string without metacharacters: each `exec`
 * finds the leftmost occurrence at or after `lastIndex` and moves `lastIndex`
 * to that occurrence's end, so the occurrences found never overlap.
 */
module TextSearch {
  import opened Document

  /** A match: the range it covers and the document text of that range. */
  datatype Match = Match(range: Range, text: seq<char>)

  /** Characters with a special meaning in a JavaScript regular expression. */
  predicate IsMetachar(c: char) {
    c in "\\^$.|?*+()[]{}"
  }

  /** A search string that `new RegExp` reads as plain text. */
  predicate Literal(s: seq<char>) {
    forall i :: 0 <= i < |s| ==> !IsMetachar(s[i])
  }

  /** ASCII case folding: the `i` flag on the characters A-Z. */
  function Fold(c: char): char {
    if 'A' <= c <= 'Z' then (c as int + 32) as char else c
  }

  /** Character equality, case-insensitive under the `i` flag. */
  predicate SameChar(a: char, b: char, ignoreCase: bool) {
    if ignoreCase then Fold(a) == Fold(b) else a == b
  }

  /** The search string occurs in `text` at offset `i`. */
  predicate MatchesAt(text: seq<char>, s: seq<char>, ignoreCase: bool, i: nat) {
    i + |s| <= |text| && forall k :: 0 <= k < |s| ==> SameChar(text[i + k], s[k], ignoreCase)
  }

  /**
   * The start offsets the scan reports when `lastIndex` starts at `from`:
   * every one is an occurrence, they increase and no two overlap.
   */
  function Occurrences(text: seq<char>, s: seq<char>, ignoreCase: bool, from: nat): (r: seq<nat>)
    requires |s| > 0
    ensures forall k :: 0 <= k < |r| ==> from <= r[k] && MatchesAt(text, s, ignoreCase, r[k])
    ensures forall j, k :: 0 <= j < k < |r| ==> r[j] + |s| <= r[k]
    decreases |text| - from
  {
    if from + |s| > |text| then []
    else if MatchesAt(text, s, ignoreCase, from) then [from] + Occurrences(text, s, ignoreCase, from + |s|)
    else Occurrences(text, s, ignoreCase, from + 1)
  }

  /** Offset `i` lies inside one of the matches that start at `starts` and are `len` long. */
  predicate Covered(starts: seq<nat>, len: nat, i: nat) {
    exists k :: 0 <= k < |starts| && starts[k] <= i < starts[k] + len
  }

  /** Putting one more match in front keeps every covered offset covered and covers that match's own offsets. */
  lemma CoveredCons(starts: seq<nat>, first: nat, len: nat, i: nat)
    requires Covered(starts, len, i) || first <= i < first + len
    ensures Covered([first] + starts, len, i)
  {
    var r := [first] + starts;
    if first <= i < first + len {
      assert r[0] == first;
    } else {
      var k :| 0 <= k < |starts| && starts[k] <= i < starts[k] + len;
      assert r[k + 1] == starts[k];
    }
  }

  /** Every occurrence at or after `from` lies inside one of the reported matches. */
  lemma {:induction false} OccurrencesComplete(text: seq<char>, s: seq<char>, ignoreCase: bool, from: nat, i: nat)
    requires |s| > 0 && from <= i && MatchesAt(text, s, ignoreCase, i)
    ensures Covered(Occurrences(text, s, ignoreCase, from), |s|, i)
    decreases |text| - from
  {
    if MatchesAt(text, s, ignoreCase, from) {
      var rest := Occurrences(text, s, ignoreCase, from + |s|);
      assert Occurrences(text, s, ignoreCase, from) == [from] + rest;
      if i >= from + |s| {
        OccurrencesComplete(text, s, ignoreCase, from + |s|, i);
      }
      CoveredCons(rest, from, |s|, i);
    } else {
      assert i != from;
      OccurrencesComplete(text, s, ignoreCase, from + 1, i);
    }
  }

  /** The match the scan builds for an occurrence at offset `i`. */
  function MatchOf(text: seq<char>, len: nat, i: nat): Match
    requires i + len <= |text|
  {
    Match(Range(PositionAt(text, i), PositionAt(text, i + len)), text[i..i + len])
  }

  /** The matches for a list of occurrence offsets, in the same order. */
  function MatchesOf(text: seq<char>, len: nat, starts: seq<nat>): (r: seq<Match>)
    requires forall k :: 0 <= k < |starts| ==> starts[k] + len <= |text|
    ensures |r| == |starts|
  {
    seq(|starts|, k requires 0 <= k < |starts| => MatchOf(text, len, starts[k]))
  }

  /** Building the matches commutes with appending one offset. */
  lemma MatchesOfAppend(text: seq<char>, len: nat, starts: seq<nat>, i: nat)
    requires forall k :: 0 <= k < |starts| ==> starts[k] + len <= |text|
    requires i + len <= |text|
    ensures MatchesOf(text, len, starts + [i]) == MatchesOf(text, len, starts) + [MatchOf(text, len, i)]
  {
    var a := MatchesOf(text, len, starts + [i]);
    var b := MatchesOf(text, len, starts) + [MatchOf(text, len, i)];
    forall k | 0 <= k < |a| ensures a[k] == b[k] {
      if k < |starts| {
        assert (starts + [i])[k] == starts[k];
      }
    }
  }

  /** The matches of a full scan of `text` for `s`. */
  function Scan(text: seq<char>, s: seq<char>, ignoreCase: bool): (r: seq<Match>)
    requires |s| > 0
  {
    MatchesOf(text, |s|, Occurrences(text, s, ignoreCase, 0))
  }

  /** An occurrence at `i` is the next offset the scan reports. */
  lemma ScanAdvance(text: seq<char>, s: seq<char>, ignoreCase: bool, found: seq<nat>, i: nat)
    requires |s| > 0 && MatchesAt(text, s, ignoreCase, i)
    requires found + Occurrences(text, s, ignoreCase, i) == Occurrences(text, s, ignoreCase, 0)
    ensures (found + [i]) + Occurrences(text, s, ignoreCase, i + |s|) == Occurrences(text, s, ignoreCase, 0)
  {
    var rest := Occurrences(text, s, ignoreCase, i + |s|);
    assert Occurrences(text, s, ignoreCase, i) == [i] + rest;
    assert (found + [i]) + rest == found + ([i] + rest);
  }

  /** The scan loop: the matches come out in the order `regex.exec` finds them. */
  method ScanMatches(text: seq<char>, s: seq<char>, ignoreCase: bool) returns (matches: seq<Match>)
    requires |s| > 0
    ensures matches == Scan(text, s, ignoreCase)
  {
    matches := [];
    ghost var found: seq<nat> := [];
    var i := 0;
    while i + |s| <= |text|
      invariant found + Occurrences(text, s, ignoreCase, i) == Occurrences(text, s, ignoreCase, 0)
      invariant forall k :: 0 <= k < |found| ==> found[k] + |s| <= |text|
      invariant matches == MatchesOf(text, |s|, found)
      decreases |text| - i
    {
      if MatchesAt(text, s, ignoreCase, i) {
        ScanAdvance(text, s, ignoreCase, found, i);
        MatchesOfAppend(text, |s|, found, i);
        found := found + [i];
        matches := matches + [MatchOf(text, |s|, i)];
        i := i + |s|;
      } else {
        i := i + 1;
      }
    }
  }

  /** The end of the k-th scanned match is the position of its occurrence's end offset. */
  lemma ScanMatchEnd(text: seq<char>, s: seq<char>, ignoreCase: bool, k: nat)
    requires |s| > 0 && k < |Scan(text, s, ignoreCase)|
    ensures Occurrences(text, s, ignoreCase, 0)[k] + |s| <= |text|
    ensures Scan(text, s, ignoreCase)[k].range.end == PositionAt(text, Occurrences(text, s, ignoreCase, 0)[k] + |s|)
  {
    assert MatchesAt(text, s, ignoreCase, Occurrences(text, s, ignoreCase, 0)[k]);
  }

  /**
   * What each scanned match holds: the document text of its range, which is
   * the search string itself, or equal to it up to case under `ignoreCase`;
   * its range runs from the position of its offset to that offset plus `|s|`.
   */
  lemma ScanMatchText(text: seq<char>, s: seq<char>, ignoreCase: bool, k: nat)
    requires |s| > 0 && k < |Scan(text, s, ignoreCase)|
    ensures var i := Occurrences(text, s, ignoreCase, 0)[k];
            var m := Scan(text, s, ignoreCase)[k];
            && m.text == text[i..i + |s|]
            && m.range == Range(PositionAt(text, i), PositionAt(text, i + |s|))
            && |m.text| == |s|
            && (!ignoreCase ==> m.text == s)
            && (forall j :: 0 <= j < |s| ==> Fold(m.text[j]) == Fold(s[j]))
  {
    var i := Occurrences(text, s, ignoreCase, 0)[k];
    var m := Scan(text, s, ignoreCase)[k];
    assert MatchesAt(text, s, ignoreCase, i);
    forall j | 0 <= j < |s| ensures SameChar(m.text[j], s[j], ignoreCase) {
      assert m.text[j] == text[i + j];
    }
  }
}
