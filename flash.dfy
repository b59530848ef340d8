/**
 * The Flash session of `flash.ts`: the module-level `flash` object (search
 * string, live marker decorations, the mode to return to), the marker
 * decorations themselves, the scan for the search string, and the label pool
 * with its collision rule.
 */
module Flash {
  import opened Common
  import opened Document
  import opened Editor
  import opened TextSearch

  /** The fixed label alphabet, in the order labels are handed out. */
  const Alphabet: seq<char> := "sklyuiopnm,qwertzxcvbahdgjf;"

  /** The place of a character in the alphabet, or -1 for a character outside it. */
  function Rank(c: char): int {
    if c == 's' then 0 else if c == 'k' then 1 else if c == 'l' then 2 else if c == 'y' then 3
    else if c == 'u' then 4 else if c == 'i' then 5 else if c == 'o' then 6 else if c == 'p' then 7
    else if c == 'n' then 8 else if c == 'm' then 9 else if c == ',' then 10 else if c == 'q' then 11
    else if c == 'w' then 12 else if c == 'e' then 13 else if c == 'r' then 14 else if c == 't' then 15
    else if c == 'z' then 16 else if c == 'x' then 17 else if c == 'c' then 18 else if c == 'v' then 19
    else if c == 'b' then 20 else if c == 'a' then 21 else if c == 'h' then 22 else if c == 'd' then 23
    else if c == 'g' then 24 else if c == 'j' then 25 else if c == 'f' then 26 else if c == ';' then 27
    else -1
  }

  /** No label appears twice in the alphabet: each character sits at its own rank. */
  lemma AlphabetDistinct()
    ensures Distinct(Alphabet)
  {
    assert forall i :: 0 <= i < |Alphabet| ==> Rank(Alphabet[i]) == i;
  }

  /**
   * One jump target on screen. Rendering is not modelled: `shown` and
   * `disposed` record that `show()` and `dispose()` were called.
   */
  class MarkerDecoration {
    const range: Range
    const labelText: string
    ghost var shown: bool
    ghost var disposed: bool

    constructor (range: Range, labelText: string)
      ensures this.range == range && this.labelText == labelText
      ensures !shown && !disposed
    {
      this.range := range;
      this.labelText := labelText;
      shown := false;
      disposed := false;
    }

    method Show()
      modifies this`shown
      ensures shown
    {
      shown := true;
    }

    method Dispose()
      modifies this`disposed
      ensures disposed
    {
      disposed := true;
    }

    /** Where a jump to this marker puts the cursor. */
    function GetJumpPosition(): (p: Position)
      ensures p == range.start
    {
      range.start
    }
  }

  /** Every decoration of the list has been disposed. */
  ghost predicate AllDisposed(ms: seq<MarkerDecoration>)
    reads ms
  {
    forall i :: 0 <= i < |ms| ==> ms[i].disposed
  }

  /** Calls `dispose()` on every decoration of the list, in order. */
  method DisposeAll(ms: seq<MarkerDecoration>)
    modifies ms`disposed
    ensures AllDisposed(ms)
  {
    for i := 0 to |ms|
      invariant forall j :: 0 <= j < i ==> ms[j].disposed
    {
      ms[i].Dispose();
    }
  }

  /** The first decoration whose label is `labelText`, as `markerDecorations.find`. */
  function FindByLabel(ms: seq<MarkerDecoration>, labelText: string): (r: Option<MarkerDecoration>)
    ensures r.Some? ==> r.value in ms && r.value.labelText == labelText
    ensures r.Some? ==> exists i :: 0 <= i < |ms| && ms[i] == r.value
                                    && forall j :: 0 <= j < i ==> ms[j].labelText != labelText
    ensures r.None? <==> forall i :: 0 <= i < |ms| ==> ms[i].labelText != labelText
  {
    Find(ms, (m: MarkerDecoration) => m.labelText == labelText)
  }

  /** The search string after `slice(0, -1)`: the last character is gone. */
  function DropLast(s: string): (r: string)
    ensures s == [] ==> r == []
    ensures s != [] ==> r + [s[|s| - 1]] == s
  {
    if s == [] then [] else s[..|s| - 1]
  }

  /** Deleting right after appending one character gives back the old string. */
  lemma DropLastAfterAppend(s: string, c: char)
    ensures DropLast(s + [c]) == s
  {
    assert (s + [c])[..|s|] == s;
  }

  /**
   * The matches `getSearchMatches` returns for a search string: none for the
   * empty string, otherwise the case-sensitive scan, every match of which
   * holds the search string itself.
   */
  function SearchMatches(document: seq<char>, s: string): (r: seq<Match>)
    ensures s == [] ==> r == []
    ensures forall k :: 0 <= k < |r| ==> r[k].text == s
  {
    if s == [] then []
    else
      var r := Scan(document, s, false);
      assert forall k :: 0 <= k < |r| ==> r[k].text == s by {
        forall k | 0 <= k < |r| ensures r[k].text == s {
          ScanMatchText(document, s, false, k);
        }
      }
      r
  }

  /** The text of the one-column range right after a match: its collision character, or nothing. */
  function GetNextChat(range: Range, document: seq<char>): (r: string)
    ensures |r| <= 1
  {
    TextOfColumn(document, range.end)
  }

  /** The collision character of a scanned match is the document character after it on the same line. */
  lemma NextChatOfScannedMatch(document: seq<char>, s: string, k: nat)
    requires |s| > 0 && k < |Scan(document, s, false)|
    ensures var e := Occurrences(document, s, false, 0)[k] + |s|;
            GetNextChat(Scan(document, s, false)[k].range, document)
            == if e < |document| && document[e] != '\n' then [document[e]] else []
  {
    var e := Occurrences(document, s, false, 0)[k] + |s|;
    ScanMatchEnd(document, s, false, k);
    TextOfColumnAtOffset(document, e);
  }

  /**
   * The collision character of a scanned match exists exactly when the
   * one-column range after the match stays on the match's line: the next
   * offset lies one column to the right of the match's end.
   */
  lemma NextChatOnLine(document: seq<char>, s: string, k: nat)
    requires |s| > 0 && k < |Scan(document, s, false)|
    ensures var e := Occurrences(document, s, false, 0)[k] + |s|;
            var end := Scan(document, s, false)[k].range.end;
            GetNextChat(Scan(document, s, false)[k].range, document) != []
            <==> e < |document| && PositionAt(document, e + 1) == Position(end.line, end.character + 1)
  {
    var e := Occurrences(document, s, false, 0)[k] + |s|;
    var range := Scan(document, s, false)[k].range;
    ScanMatchEnd(document, s, false, k);
    ColumnStaysOnLine(document, e, range.end);
  }

  /** Some match has `c` as its collision character. */
  predicate Collides(c: char, matches: seq<Match>, document: seq<char>) {
    exists k :: 0 <= k < |matches| && GetNextChat(matches[k].range, document) == [c]
  }

  /** `alphabet`, in order, without every collision character of the matches. */
  function LabelPool(alphabet: seq<char>, matches: seq<Match>, document: seq<char>): (r: seq<char>)
    ensures forall i :: 0 <= i < |r| ==> r[i] in alphabet && !Collides(r[i], matches, document)
    ensures forall i :: 0 <= i < |alphabet| && !Collides(alphabet[i], matches, document) ==> alphabet[i] in r
    ensures Distinct(alphabet) ==> Distinct(r)
    ensures IsSubsequence(r, alphabet)
  {
    var nextChatList := seq(|matches|, k requires 0 <= k < |matches| => GetNextChat(matches[k].range, document));
    assert forall c :: [c] in nextChatList <==> Collides(c, matches, document) by {
      forall c ensures [c] in nextChatList <==> Collides(c, matches, document) {
        if Collides(c, matches, document) {
          var k :| 0 <= k < |matches| && GetNextChat(matches[k].range, document) == [c];
          assert nextChatList[k] == [c];
        }
      }
    }
    Filter(alphabet, (c: char) => [c] !in nextChatList)
  }

  /**
   * The label pool of `generateMarkerLabels`: the alphabet, in order, without
   * every collision character of the matches.
   */
  function GenerateMarkerLabels(matches: seq<Match>, document: seq<char>): (r: seq<char>)
    ensures forall i :: 0 <= i < |r| ==> r[i] in Alphabet && !Collides(r[i], matches, document)
    ensures forall i :: 0 <= i < |Alphabet| && !Collides(Alphabet[i], matches, document) ==> Alphabet[i] in r
    ensures Distinct(r)
    ensures IsSubsequence(r, Alphabet)
  {
    AlphabetDistinct();
    LabelPool(Alphabet, matches, document)
  }

  /** The label of the `i`-th new marker: `labels[i] || ''`. */
  function LabelAt(labels: seq<char>, i: nat): (r: string)
    ensures |r| <= 1
    ensures r != [] <==> i < |labels|
  {
    if i < |labels| then [labels[i]] else []
  }

  /**
   * Markers labelled from `GenerateMarkerLabels` are unambiguous: no two carry
   * the same non-empty label, and no non-empty label is the collision
   * character of any match.
   */
  lemma {:induction false} MarkerLabelsUnambiguous(matches: seq<Match>, document: seq<char>)
    ensures var labels := GenerateMarkerLabels(matches, document);
            forall i, j :: 0 <= i < j && LabelAt(labels, i) != [] ==> LabelAt(labels, i) != LabelAt(labels, j)
    ensures var labels := GenerateMarkerLabels(matches, document);
            forall i, k :: 0 <= k < |matches| && LabelAt(labels, i) != [] ==> LabelAt(labels, i) != GetNextChat(matches[k].range, document)
  {
    var labels := GenerateMarkerLabels(matches, document);
    PoolLabelsUnambiguous(labels, matches, document);
  }

  /** The same for any pool without repeats and without collision characters. */
  lemma PoolLabelsUnambiguous(labels: seq<char>, matches: seq<Match>, document: seq<char>)
    requires Distinct(labels)
    requires forall i :: 0 <= i < |labels| ==> !Collides(labels[i], matches, document)
    ensures forall i, j :: 0 <= i < j && LabelAt(labels, i) != [] ==> LabelAt(labels, i) != LabelAt(labels, j)
    ensures forall i, k :: 0 <= k < |matches| && LabelAt(labels, i) != [] ==> LabelAt(labels, i) != GetNextChat(matches[k].range, document)
  {
    forall i: nat, k | 0 <= k < |matches| && LabelAt(labels, i) != []
      ensures LabelAt(labels, i) != GetNextChat(matches[k].range, document)
    {
      assert !Collides(labels[i], matches, document);
    }
  }

  /**
   * `ms` holds one decoration per match, in match order, on the match's range,
   * labelled from `labels` (none once they run out), shown and not disposed.
   */
  ghost predicate Labelled(ms: seq<MarkerDecoration>, matches: seq<Match>, labels: seq<char>)
    reads ms
  {
    && |ms| == |matches|
    && forall i :: 0 <= i < |ms| ==>
         && ms[i].range == matches[i].range
         && ms[i].labelText == LabelAt(labels, i)
         && ms[i].shown && !ms[i].disposed
  }

  /** Builds and shows one decoration per match, in match order, labelled from `labels`. */
  method NewMarkerDecorations(matches: seq<Match>, labels: seq<char>) returns (ms: seq<MarkerDecoration>)
    ensures Distinct(ms)
    ensures forall i :: 0 <= i < |ms| ==> fresh(ms[i])
    ensures Labelled(ms, matches, labels)
  {
    ms := [];
    for i := 0 to |matches|
      invariant |ms| == i && Distinct(ms)
      invariant forall j :: 0 <= j < i ==> fresh(ms[j])
      invariant forall j :: 0 <= j < i ==> ms[j].range == matches[j].range && ms[j].labelText == LabelAt(labels, j)
      invariant forall j :: 0 <= j < i ==> ms[j].shown && !ms[j].disposed
    {
      var labelText := if i < |labels| then [labels[i]] else "";
      var m := new MarkerDecoration(matches[i].range, labelText);
      m.Show();
      ms := ms + [m];
    }
  }

  /** The outcome of taking one label from the pool: the label (if any) and the pool left. */
  datatype Take = Take(labelTaken: Option<char>, rest: seq<char>)

  /**
   * `takeMarkerLabel` as written. The index is 0 on entry; on a clash it reads
   * `markerLabels[1]` but resets the index to 0 before `splice(index, 1)`, so
   * the pool loses its first element, not the label handed out.
   */
  function TakeMarkerLabelAsWritten(pool: seq<char>, nextChat: string): (t: Take)
    ensures pool == [] ==> t == Take(None, [])
    ensures pool != [] ==> t.rest == pool[1..]
    ensures pool != [] && nextChat != [pool[0]] ==> t.labelTaken == Some(pool[0])
    ensures |pool| >= 2 && nextChat == [pool[0]] ==> t.labelTaken == Some(pool[1])
    ensures |pool| == 1 && nextChat == [pool[0]] ==> t.labelTaken == None
  {
    if pool == [] then Take(None, [])
    else if nextChat == [pool[0]] then Take(if |pool| >= 2 then Some(pool[1]) else None, pool[1..])
    else Take(Some(pool[0]), pool[1..])
  }

  /**
   * With the real alphabet, a clash on 's' hands out 'k' but leaves 'k' in the
   * pool, and the next call without a clash hands out 'k' again.
   */
  lemma TakeMarkerLabelAsWrittenRepeats()
    ensures var first := TakeMarkerLabelAsWritten(Alphabet, "s");
            var second := TakeMarkerLabelAsWritten(first.rest, "x");
            first.labelTaken == Some('k') && second.labelTaken == Some('k')
  {
    var first := TakeMarkerLabelAsWritten(Alphabet, "s");
    assert Alphabet[0] == 's' && Alphabet[1] == 'k';
    assert first.rest[0] == 'k';
  }

  /**
   * `takeMarkerLabel` with the splice at the index of the label handed out:
   * the first label unless it is the collision character, then the second.
   */
  function TakeFromPool(pool: seq<char>, nextChat: string): (t: Take)
    ensures pool != [] && nextChat != [pool[0]] ==> t == Take(Some(pool[0]), pool[1..])
    ensures |pool| >= 2 && nextChat == [pool[0]] ==> t == Take(Some(pool[1]), [pool[0]] + pool[2..])
    ensures t.labelTaken.None? ==> t.rest == pool
    ensures t.labelTaken.Some? ==> multiset(t.rest) + multiset{t.labelTaken.value} == multiset(pool)
    ensures Distinct(pool) ==> Distinct(t.rest)
    ensures Distinct(pool) && t.labelTaken.Some? ==> t.labelTaken.value !in t.rest && [t.labelTaken.value] != nextChat
  {
    if pool == [] then Take(None, [])
    else if nextChat == [pool[0]] then
      if |pool| >= 2 then
        assert pool == [pool[0]] + [pool[1]] + pool[2..];
        var rest := [pool[0]] + pool[2..];
        if Distinct(pool) then
          DistinctSkipSecond(pool);
          Take(Some(pool[1]), rest)
        else Take(Some(pool[1]), rest)
      else Take(None, pool)
    else
      assert pool == [pool[0]] + pool[1..];
      if Distinct(pool) then
        DistinctTail(pool);
        Take(Some(pool[0]), pool[1..])
      else Take(Some(pool[0]), pool[1..])
  }

  /** Taking the second element out of a pool without repeats leaves a pool without repeats, and without it. */
  lemma DistinctSkipSecond(pool: seq<char>)
    requires Distinct(pool) && |pool| >= 2
    ensures Distinct([pool[0]] + pool[2..]) && pool[1] !in [pool[0]] + pool[2..]
  {
    var rest := [pool[0]] + pool[2..];
    forall i, j | 0 <= i < j < |rest| ensures rest[i] != rest[j] {
      assert rest[i] == pool[if i == 0 then 0 else i + 1];
      assert rest[j] == pool[j + 1];
    }
    forall i | 0 <= i < |rest| ensures rest[i] != pool[1] {
      assert rest[i] == pool[if i == 0 then 0 else i + 1];
    }
  }


  /** The labels handed out by successive calls, one per collision character. */
  function TakeAll(pool: seq<char>, nextChats: seq<string>): (labels: seq<Option<char>>)
    ensures |labels| == |nextChats|
    decreases |nextChats|
  {
    if nextChats == [] then []
    else
      var t := TakeFromPool(pool, nextChats[0]);
      [t.labelTaken] + TakeAll(t.rest, nextChats[1..])
  }

  /** Every label handed out comes from the pool. */
  lemma {:induction false} TakeAllFromPool(pool: seq<char>, nextChats: seq<string>)
    ensures forall i :: 0 <= i < |nextChats| && TakeAll(pool, nextChats)[i].Some?
                        ==> TakeAll(pool, nextChats)[i].value in pool
    decreases |nextChats|
  {
    if nextChats != [] {
      var t := TakeFromPool(pool, nextChats[0]);
      TakeAllFromPool(t.rest, nextChats[1..]);
      var labels := TakeAll(pool, nextChats);
      forall i | 0 <= i < |nextChats| && labels[i].Some? ensures labels[i].value in pool {
        if i == 0 {
          assert labels[0] == t.labelTaken;
          assert t.labelTaken.value in multiset(pool);
        } else {
          assert labels[i] == TakeAll(t.rest, nextChats[1..])[i - 1];
          assert labels[i].value in multiset(t.rest);
        }
      }
    }
  }

  /** No label is handed out twice. */
  predicate NoLabelTwice(labels: seq<Option<char>>) {
    forall i, j :: 0 <= i < j < |labels| && labels[i].Some? ==> labels[i] != labels[j]
  }

  /** A label that the later calls cannot hand out, followed by labels handed out once each. */
  lemma NoLabelTwiceCons(first: Option<char>, later: seq<Option<char>>, rest: seq<char>)
    requires NoLabelTwice(later)
    requires forall k :: 0 <= k < |later| && later[k].Some? ==> later[k].value in rest
    requires first.Some? ==> first.value !in rest
    ensures NoLabelTwice([first] + later)
  {
    var labels := [first] + later;
    forall i, j | 0 <= i < j < |labels| && labels[i].Some? ensures labels[i] != labels[j] {
      assert labels[j] == later[j - 1];
      if i > 0 {
        assert labels[i] == later[i - 1];
      }
    }
  }

  /** With the splice at the right index, successive calls never hand out a label twice. */
  lemma {:induction false} TakeAllDistinct(pool: seq<char>, nextChats: seq<string>)
    requires Distinct(pool)
    ensures NoLabelTwice(TakeAll(pool, nextChats))
    decreases |nextChats|
  {
    if nextChats != [] {
      var t := TakeFromPool(pool, nextChats[0]);
      TakeAllDistinct(t.rest, nextChats[1..]);
      TakeAllFromPool(t.rest, nextChats[1..]);
      NoLabelTwiceCons(t.labelTaken, TakeAll(t.rest, nextChats[1..]), t.rest);
    }
  }

  /**
   * The module state of `takeMarkerLabel`: the pool, spliced in place, and
   * `markerChatIndex`, which is 0 between calls.
   */
  class LabelPoolState {
    var markerLabels: seq<char>
    var markerChatIndex: nat

    constructor ()
      ensures markerLabels == Alphabet && markerChatIndex == 0
    {
      markerLabels := Alphabet;
      markerChatIndex := 0;
    }

    method TakeMarkerLabel(range: Range, document: seq<char>) returns (labelTaken: Option<char>)
      requires markerChatIndex == 0
      modifies this
      ensures markerChatIndex == 0
      ensures Take(labelTaken, markerLabels) == TakeFromPool(old(markerLabels), GetNextChat(range, document))
    {
      labelTaken := if markerChatIndex < |markerLabels| then Some(markerLabels[markerChatIndex]) else None;
      var nextChat := GetNextChat(range, document);
      var isClash := labelTaken.Some? && nextChat == [labelTaken.value];
      if isClash {
        markerChatIndex := markerChatIndex + 1;
        labelTaken := if markerChatIndex < |markerLabels| then Some(markerLabels[markerChatIndex]) else None;
      }
      if markerChatIndex < |markerLabels| {
        markerLabels := markerLabels[..markerChatIndex] + markerLabels[markerChatIndex + 1..];
      }
      markerChatIndex := 0;
    }
  }

  /** The module-level `flash` object. */
  class FlashSession {
    var searchString: string
    var markerDecorations: seq<MarkerDecoration>
    var previousMode: Option<Mode>

    constructor ()
      ensures searchString == [] && markerDecorations == [] && previousMode == None
    {
      searchString := [];
      markerDecorations := [];
      previousMode := None;
    }

    method AppendSearchString(str: string)
      modifies this`searchString
      ensures searchString == old(searchString) + str
    {
      searchString := searchString + str;
    }

    method DeleteSearchString()
      modifies this`searchString
      ensures searchString == DropLast(old(searchString))
    {
      searchString := if searchString == [] then [] else searchString[..|searchString| - 1];
    }

    /** The matches of the search string in the document, in scan order. */
    method GetSearchMatches(document: seq<char>) returns (matches: seq<Match>)
      requires Literal(searchString)
      ensures searchString == [] ==> matches == []
      ensures matches == SearchMatches(document, searchString)
    {
      matches := [];
      if |searchString| == 0 {
        return;
      }
      matches := ScanMatches(document, searchString, false);
    }

    /** Ends the session: empty search string, no mode to return to, every marker disposed. */
    method ResetFlash()
      modifies this, markerDecorations`disposed
      ensures searchString == [] && previousMode == None && markerDecorations == []
      ensures AllDisposed(old(markerDecorations))
    {
      searchString := [];
      previousMode := None;
      searchString := [];
      DisposeAll(markerDecorations);
      markerDecorations := [];
    }

    function FindMarkerDecorationByLabel(labelText: string): (r: Option<MarkerDecoration>)
      reads this
      ensures r.Some? ==> exists i :: 0 <= i < |markerDecorations| && markerDecorations[i] == r.value
                                      && r.value.labelText == labelText
                                      && forall j :: 0 <= j < i ==> markerDecorations[j].labelText != labelText
      ensures r.None? <==> forall i :: 0 <= i < |markerDecorations| ==> markerDecorations[i].labelText != labelText
    {
      FindByLabel(markerDecorations, labelText)
    }
  }

  /** The ranges of the matches, in match order: the `searchMatch` of `generateFlashDecorations`. */
  method GenerateFlashDecorations(flash: FlashSession, document: seq<char>) returns (searchMatch: seq<Range>)
    requires Literal(flash.searchString)
    ensures var matches := SearchMatches(document, flash.searchString);
            |searchMatch| == |matches| && forall i :: 0 <= i < |matches| ==> searchMatch[i] == matches[i].range
  {
    var matches := flash.GetSearchMatches(document);
    searchMatch := seq(|matches|, i requires 0 <= i < |matches| => matches[i].range);
  }
}
