/**
 * The marker set of the Leap motion (`leap.ts`): markers built from the
 * matches, labelled group by group (a group is the markers of one search
 * string, reordered to alternate backward and forward matches when the
 * search is bidirectional), filtered in place by prefix or search string,
 * looked up by label, cleaned up, and the cursor landing of a jump.
 */
module Leap {
  import opened Common
  import opened Document
  import opened Editor

  /** `LeapSearchDirection`: Forward = -1, Backward = 1, Bidirectional = 2. */
  datatype Direction = Forward | Backward | Bidirectional

  /** The part of a Leap match a marker is built from. */
  datatype LeapMatch = LeapMatch(position: Position, searchString: string, direction: Direction)

  /**
   * A Leap marker. The position, search string and direction come from its
   * match and `prefix` from `createMarker`; the label is written by
   * `setMarkersName`. `shown` and `disposed` record that `show()` and
   * `dispose()` were called.
   */
  class Marker {
    const position: Position
    const searchString: string
    const direction: Direction
    const prefix: string
    var labelText: string
    ghost var shown: bool
    ghost var disposed: bool

    constructor (m: LeapMatch, prefix: string)
      ensures position == m.position && searchString == m.searchString && direction == m.direction
      ensures this.prefix == prefix && labelText == [] && !shown && !disposed
    {
      position := m.position;
      searchString := m.searchString;
      direction := m.direction;
      this.prefix := prefix;
      labelText := [];
      shown := false;
      disposed := false;
    }

    method Show()
      modifies this`shown
      ensures shown
    {
      shown := true;
    }

    method Dispose()
      modifies this`disposed
      ensures disposed
    {
      disposed := true;
    }
  }

  /** Every marker of the list has been disposed. */
  ghost predicate AllDisposed(ms: seq<Marker>)
    reads ms
  {
    forall i :: 0 <= i < |ms| ==> ms[i].disposed
  }

  /** The test `marker.searchString === s`. */
  function SearchIs(s: string): Marker -> bool {
    (m: Marker) => m.searchString == s
  }

  /** The test `marker.prefix === p`. */
  function PrefixIs(p: string): Marker -> bool {
    (m: Marker) => m.prefix == p
  }

  /** The test `marker.direction === d`. */
  function DirectionIs(d: Direction): Marker -> bool {
    (m: Marker) => m.direction == d
  }

  /**
   * The markers of search string `s`, in list order: the group that the
   * `forEach` of `setMarkersName` pushes them into, one marker at a time.
   */
  function Group(ms: seq<Marker>, s: string): (r: seq<Marker>)
    ensures |r| <= |ms|
    ensures forall i :: 0 <= i < |r| ==> r[i] in ms && r[i].searchString == s
    decreases |ms|
  {
    if ms == [] then []
    else Group(ms[..|ms| - 1], s) + (if ms[|ms| - 1].searchString == s then [ms[|ms| - 1]] else [])
  }

  /** The group of `s` is the order-preserving filter `markers.filter(m => m.searchString === s)`. */
  lemma {:induction false} GroupIsFilter(ms: seq<Marker>, s: string)
    ensures Group(ms, s) == Filter(ms, SearchIs(s))
    decreases |ms|
  {
    if ms != [] {
      var init, last := ms[..|ms| - 1], ms[|ms| - 1];
      GroupIsFilter(init, s);
      assert ms == init + [last];
      FilterAppend(init, last, SearchIs(s));
    }
  }

  /** The group of each search string after one more marker of the `forEach`. */
  lemma GroupStep(ms: seq<Marker>, i: nat)
    requires i < |ms|
    ensures forall s :: Group(ms[..i + 1], s) == Group(ms[..i], s) + (if ms[i].searchString == s then [ms[i]] else [])
  {
    assert ms[..i + 1][..i] == ms[..i];
  }

  /** What the group holds: the markers of `s` and no others, once each when the list has no repeats. */
  lemma GroupMembers(ms: seq<Marker>, s: string)
    ensures forall i :: 0 <= i < |Group(ms, s)| ==> Group(ms, s)[i] in ms && Group(ms, s)[i].searchString == s
    ensures forall i :: 0 <= i < |ms| && ms[i].searchString == s ==> ms[i] in Group(ms, s)
    ensures IsSubsequence(Group(ms, s), ms)
    ensures Distinct(ms) ==> Distinct(Group(ms, s))
  {
    GroupIsFilter(ms, s);
  }

  /** The markers of a group tagged `d`, in group order. */
  function Tagged(group: seq<Marker>, d: Direction): (r: seq<Marker>)
    ensures forall i :: 0 <= i < |r| ==> r[i] in group && r[i].direction == d
    ensures forall i :: 0 <= i < |group| && group[i].direction == d ==> group[i] in r
    ensures Distinct(group) ==> Distinct(r)
  {
    Filter(group, DirectionIs(d))
  }

  /** `b[0], f[0], b[1], f[1], …`, then the rest of the longer one in order. */
  function Interleave<T>(b: seq<T>, f: seq<T>): (r: seq<T>)
    ensures |r| == |b| + |f|
    decreases |b| + |f|
  {
    if b == [] then f
    else if f == [] then b
    else [b[0], f[0]] + Interleave(b[1..], f[1..])
  }

  /** The group order of `reorder`: backward and forward matches alternate; others are dropped. */
  function Reordered(group: seq<Marker>): (r: seq<Marker>)
    ensures forall i :: 0 <= i < |r| ==> r[i] in group && r[i].direction != Bidirectional
  {
    var b, f := Tagged(group, Backward), Tagged(group, Forward);
    InterleaveLength(b, f);
    assert forall i :: 0 <= i < |Interleave(b, f)| ==> Interleave(b, f)[i] in multiset(b) + multiset(f);
    Interleave(b, f)
  }

  /** `setMarkersName` relabels a marker unless the bidirectional reorder drops it. */
  predicate Relabelled(m: Marker, bidirectional: bool) {
    !bidirectional || m.direction != Bidirectional
  }

  /** The order in which `setMarkersName` labels the group of `s`. */
  function LabelOrder(ms: seq<Marker>, s: string, bidirectional: bool): (r: seq<Marker>)
    ensures forall i :: 0 <= i < |r| ==> r[i] in ms && r[i].searchString == s && Relabelled(r[i], bidirectional)
  {
    GroupMembers(ms, s);
    if bidirectional then Reordered(Group(ms, s)) else Group(ms, s)
  }

  /** `markerNames[index]`, with `''` once the names run out. */
  function NameAt(names: seq<string>, k: nat): (r: string)
    ensures r == [] || r in names
    ensures (forall i :: 0 <= i < |names| ==> names[i] != []) ==> (r != [] <==> k < |names|)
  {
    if k < |names| then names[k] else []
  }

  /** The interleaving keeps every element of both sides and nothing else. */
  lemma {:induction false} InterleaveLength<T>(b: seq<T>, f: seq<T>)
    ensures |Interleave(b, f)| == |b| + |f|
    ensures multiset(Interleave(b, f)) == multiset(b) + multiset(f)
    decreases |b| + |f|
  {
    if b != [] && f != [] {
      InterleaveLength(b[1..], f[1..]);
      assert b == [b[0]] + b[1..];
      assert f == [f[0]] + f[1..];
    }
  }

  /** For `i < min(|b|, |f|)` the interleaving holds `b[i]` at `2i` and `f[i]` at `2i + 1`. */
  lemma {:induction false} InterleaveAlternates<T>(b: seq<T>, f: seq<T>, i: nat)
    requires i < |b| && i < |f|
    ensures 2 * i + 1 < |Interleave(b, f)|
    ensures Interleave(b, f)[2 * i] == b[i] && Interleave(b, f)[2 * i + 1] == f[i]
    decreases i
  {
    var rest := Interleave(b[1..], f[1..]);
    var r := Interleave(b, f);
    assert r == [b[0], f[0]] + rest;
    if i > 0 {
      InterleaveAlternates(b[1..], f[1..], i - 1);
      assert r[2 * i] == rest[2 * i - 2] && r[2 * i + 1] == rest[2 * i - 1];
    }
  }

  /** When the backward side is the shorter, the interleaving ends with the rest of the forward side. */
  lemma {:induction false} InterleaveForwardRest<T>(b: seq<T>, f: seq<T>)
    requires |b| <= |f|
    ensures 2 * |b| <= |Interleave(b, f)| && Interleave(b, f)[2 * |b|..] == f[|b|..]
    decreases |b|
  {
    if b != [] {
      InterleaveForwardRest(b[1..], f[1..]);
      var rest := Interleave(b[1..], f[1..]);
      assert Interleave(b, f) == [b[0], f[0]] + rest;
      assert Interleave(b, f)[2 * |b|..] == rest[2 * (|b| - 1)..];
      assert f[|b|..] == f[1..][|b| - 1..];
    }
  }

  /** When the forward side is the shorter, the interleaving ends with the rest of the backward side. */
  lemma {:induction false} InterleaveBackwardRest<T>(b: seq<T>, f: seq<T>)
    requires |f| <= |b|
    ensures 2 * |f| <= |Interleave(b, f)| && Interleave(b, f)[2 * |f|..] == b[|f|..]
    decreases |f|
  {
    if f != [] {
      InterleaveBackwardRest(b[1..], f[1..]);
      var rest := Interleave(b[1..], f[1..]);
      assert Interleave(b, f) == [b[0], f[0]] + rest;
      assert Interleave(b, f)[2 * |f|..] == rest[2 * (|f| - 1)..];
      assert b[|f|..] == b[1..][|f| - 1..];
    }
  }

  /** One round of the first `reorder` loop. */
  lemma InterleaveStep<T>(b: seq<T>, f: seq<T>, i: nat)
    requires i < |b| && i < |f|
    ensures Interleave(b[i..], f[i..]) == [b[i], f[i]] + Interleave(b[i + 1..], f[i + 1..])
  {
    assert b[i..][1..] == b[i + 1..];
    assert f[i..][1..] == f[i + 1..];
  }

  /** An interleaving of two disjoint sequences without repeats has no repeats. */
  lemma {:induction false} InterleaveDistinct<T>(b: seq<T>, f: seq<T>)
    requires Distinct(b) && Distinct(f)
    requires forall i, j :: 0 <= i < |b| && 0 <= j < |f| ==> b[i] != f[j]
    ensures Distinct(Interleave(b, f))
    decreases |b| + |f|
  {
    if b != [] && f != [] {
      var b', f' := b[1..], f[1..];
      DistinctTail(b);
      DistinctTail(f);
      assert forall i, j :: 0 <= i < |b'| && 0 <= j < |f'| ==> b'[i] != f'[j] by {
        assert forall i :: 0 <= i < |b'| ==> b'[i] == b[i + 1];
        assert forall j :: 0 <= j < |f'| ==> f'[j] == f[j + 1];
      }
      InterleaveDistinct(b', f');
      var rest := Interleave(b', f');
      InterleaveLength(b', f');
      assert b[0] !in f' by { assert forall j :: 0 <= j < |f'| ==> f'[j] == f[j + 1]; }
      assert f[0] !in b' by { assert forall i :: 0 <= i < |b'| ==> b'[i] == b[i + 1]; }
      assert b[0] !in multiset(rest) && f[0] !in multiset(rest);
      DistinctCons2(b[0], f[0], rest);
    }
  }

  /**
   * `reorder` holds exactly the group's backward-tagged and forward-tagged
   * markers, each once, and no marker tagged `Bidirectional`.
   */
  lemma ReorderedContents(group: seq<Marker>)
    ensures |Reordered(group)| == |Tagged(group, Backward)| + |Tagged(group, Forward)|
    ensures multiset(Reordered(group)) == multiset(Tagged(group, Backward)) + multiset(Tagged(group, Forward))
    ensures Distinct(group) ==> Distinct(Reordered(group))
  {
    var b, f := Tagged(group, Backward), Tagged(group, Forward);
    InterleaveLength(b, f);
    if Distinct(group) {
      InterleaveDistinct(b, f);
    }
  }

  /** The labels `setMarkersName` writes are the names of the position in the label order. */
  ghost predicate GroupLabelled(ms: seq<Marker>, s: string, bidirectional: bool, names: nat -> seq<string>)
    reads ms
  {
    var order := LabelOrder(ms, s, bidirectional);
    forall k :: 0 <= k < |order| ==> order[k].labelText == NameAt(names(|order|), k)
  }

  /** The position of `m` in `order`: its first index, or `|order|` when it is absent. */
  function IndexIn(order: seq<Marker>, m: Marker): (k: nat)
    ensures k <= |order|
    ensures k < |order| ==> order[k] == m && forall j :: 0 <= j < k ==> order[j] != m
    ensures m in order ==> k < |order|
    decreases |order|
  {
    if order == [] then 0
    else if order[0] == m then 0
    else
      var k := IndexIn(order[1..], m);
      assert forall j :: 0 <= j < |order| - 1 ==> order[1..][j] == order[j + 1];
      1 + k
  }

  /** The label `setMarkersName` gives `m`: the name of its place in the label order of its search string. */
  function ExpectedLabel(ms: seq<Marker>, m: Marker, bidirectional: bool, names: nat -> seq<string>): (r: string)
    ensures r == [] || r in names(|LabelOrder(ms, m.searchString, bidirectional)|)
  {
    var order := LabelOrder(ms, m.searchString, bidirectional);
    NameAt(names(|order|), IndexIn(order, m))
  }

  /** Every marker the reorder keeps is in the label order of its own search string. */
  lemma InLabelOrder(ms: seq<Marker>, m: Marker, bidirectional: bool)
    requires m in ms && Relabelled(m, bidirectional)
    ensures m in LabelOrder(ms, m.searchString, bidirectional)
  {
    var group := Group(ms, m.searchString);
    GroupMembers(ms, m.searchString);
    assert m in group;
    if bidirectional {
      ReorderedContents(group);
      assert m in Tagged(group, m.direction);
      assert m in multiset(Reordered(group));
    }
  }

  /** The label order of a list without repeats has none. */
  lemma LabelOrderDistinct(ms: seq<Marker>, s: string, bidirectional: bool)
    requires Distinct(ms)
    ensures Distinct(LabelOrder(ms, s, bidirectional))
  {
    GroupMembers(ms, s);
    ReorderedContents(Group(ms, s));
  }

  /**
   * Markers that each carry their expected label are labelled group by group:
   * the k-th marker of every label order carries the k-th name.
   */
  lemma ExpectedLabelsGroupLabelled(ms: seq<Marker>, bidirectional: bool, names: nat -> seq<string>)
    requires Distinct(ms)
    requires forall i :: 0 <= i < |ms| && Relabelled(ms[i], bidirectional) ==>
               ms[i].labelText == ExpectedLabel(ms, ms[i], bidirectional, names)
    ensures forall s :: GroupLabelled(ms, s, bidirectional, names)
  {
    forall s ensures GroupLabelled(ms, s, bidirectional, names) {
      var order := LabelOrder(ms, s, bidirectional);
      LabelOrderDistinct(ms, s, bidirectional);
      forall k | 0 <= k < |order| ensures order[k].labelText == NameAt(names(|order|), k) {
        var i :| 0 <= i < |ms| && ms[i] == order[k];
        assert IndexIn(order, order[k]) == k;
      }
    }
  }

  /**
   * With names that never repeat, two markers of one search string that both
   * got a non-empty label from `setMarkersName` carry different labels, so
   * `findMarkerByName` within a group finds the one marker meant.
   */
  lemma {:induction false} GroupLabelsUnambiguous(ms: seq<Marker>, bidirectional: bool, names: nat -> seq<string>, a: Marker, b: Marker)
    requires forall n :: Distinct(names(n))
    requires a in ms && b in ms && Relabelled(a, bidirectional) && Relabelled(b, bidirectional)
    requires a.searchString == b.searchString
    requires ExpectedLabel(ms, a, bidirectional, names) == ExpectedLabel(ms, b, bidirectional, names)
    requires ExpectedLabel(ms, a, bidirectional, names) != []
    ensures a == b
  {
    var order := LabelOrder(ms, a.searchString, bidirectional);
    InLabelOrder(ms, a, bidirectional);
    InLabelOrder(ms, b, bidirectional);
    var ka, kb := IndexIn(order, a), IndexIn(order, b);
    var ns := names(|order|);
    assert ka < |ns| && kb < |ns| && ns[ka] == ns[kb];
    assert ka == kb by {
      assert Distinct(ns);
    }
  }

  /**
   * The cursor landing of the four jump helpers. `containMarkerBackwardJump`
   * reads the length of the target line and `excludeMarkerBackwardJump` at
   * column 0 reads the length of the previous line; both exist only where the
   * host's `lineAt` and `Position` accept them.
   */
  predicate ContainBackwardDefined(document: seq<char>, p: Position) {
    p.line < LineCount(document) && LineLength(document, p.line) > 0
  }

  predicate ExcludeBackwardDefined(document: seq<char>, p: Position) {
    p.character == 0 ==> 0 < p.line <= LineCount(document)
  }

  function Min(a: int, b: int): int {
    if a < b then a else b
  }

  /**
   * `containMarkerBackwardJump`: one column right of the target, clamped to
   * the last column of its line, so the selection takes in the target
   * character and never leaves the line.
   */
  function ContainBackwardTarget(document: seq<char>, p: Position): (q: Position)
    requires ContainBackwardDefined(document, p)
    ensures q.line == p.line && q.character < LineLength(document, p.line)
    ensures p.character < LineLength(document, p.line) ==> !IsBackward(p, q)
    ensures p.character + 1 < LineLength(document, p.line) ==> q.character == p.character + 1
  {
    Position(p.line, Min(p.character + 1, LineLength(document, p.line) - 1))
  }

  /**
   * `excludeMarkerBackwardJump`: one column left, or the end of the previous
   * line from column 0; either way strictly before the target.
   */
  function ExcludeBackwardTarget(document: seq<char>, p: Position): (q: Position)
    requires ExcludeBackwardDefined(document, p)
    ensures IsBackward(p, q)
    ensures p.character == 0 ==> q.line + 1 == p.line && q.character == LineLength(document, q.line)
    ensures p.character > 0 ==> q.line == p.line && q.character + 1 == p.character
  {
    if p.character == 0 then Position(p.line - 1, LineLength(document, p.line - 1))
    else Position(p.line, p.character - 1)
  }

  /** `excludeMarkerForwardJump`: two columns right on the same line, unclamped; strictly after the target. */
  function ExcludeForwardTarget(p: Position): (q: Position)
    ensures q.line == p.line && q.character == p.character + 2
    ensures IsBackward(q, p)
  {
    Position(p.line, p.character + 2)
  }

  /** `isBackward(a, b)`: `a` lies strictly after `b` in (line, character) order. */
  function IsBackward(a: Position, b: Position): (r: bool)
    ensures r <==> a.line > b.line || (a.line == b.line && a.character > b.character)
  {
    if a.line != b.line then a.line > b.line else a.character > b.character
  }

  /** `markers.find` on the label: the first marker labelled `name`, or none. */
  function FindByName(ms: seq<Marker>, name: string): (r: Option<Marker>)
    reads ms
    ensures r.Some? ==> exists i :: 0 <= i < |ms| && ms[i] == r.value && r.value.labelText == name
                                    && forall j :: 0 <= j < i ==> ms[j].labelText != name
    ensures r.None? <==> forall i :: 0 <= i < |ms| ==> ms[i].labelText != name
    decreases |ms|
  {
    if ms == [] then None
    else if ms[0].labelText == name then Some(ms[0])
    else
      var r := FindByName(ms[1..], name);
      assert forall i :: 0 <= i < |ms| - 1 ==> ms[1..][i] == ms[i + 1];
      r
  }

  /** `isBackward` is a strict total order on positions: the (line, character) order. */
  lemma IsBackwardStrictOrder(a: Position, b: Position, c: Position)
    ensures !IsBackward(a, a)
    ensures IsBackward(a, b) ==> !IsBackward(b, a)
    ensures IsBackward(a, b) && IsBackward(b, c) ==> IsBackward(a, c)
    ensures a != b ==> IsBackward(a, b) || IsBackward(b, a)
  {
  }

  /**
   * The landings of `changeCursorStopPosition` that read the document exist:
   * the contain-backward jump on a non-empty line, the exclude-backward jump
   * from column 0 only below the first line.
   */
  predicate JumpDefined(document: seq<char>, previousMode: Mode, bidirectional: bool, searchMode: string,
                        cursor: Position, position: Position)
  {
    && (IsVisualMode(previousMode) && searchMode == "s" && (!bidirectional || IsBackward(position, cursor))
        ==> ContainBackwardDefined(document, position))
    && (IsVisualMode(previousMode) && searchMode == "x" && (!bidirectional || IsBackward(position, cursor))
        ==> ExcludeBackwardDefined(document, position))
  }

  /**
   * The cursor stop after `changeCursorStopPosition(position)`. Outside the
   * visual modes it is the target. In a visual mode, bidirectional search
   * picks the side of the cursor the target is on, for `s` (contain) and `x`
   * (exclude); one-way search maps `x` to the backward exclude, `X` to the
   * forward exclude and `s` to the backward contain. Any other search mode
   * leaves the cursor where it was.
   */
  function CursorAfterJump(document: seq<char>, previousMode: Mode, bidirectional: bool, searchMode: string,
                           cursor: Position, position: Position): (q: Position)
    requires JumpDefined(document, previousMode, bidirectional, searchMode, cursor, position)
    ensures q == cursor || q.line == position.line || q.line + 1 == position.line
    ensures q != cursor && q != position ==> IsVisualMode(previousMode) && (searchMode == "s" || searchMode == "x" || searchMode == "X")
  {
    if !IsVisualMode(previousMode) then position
    else if bidirectional then
      if searchMode == "s" then
        if IsBackward(position, cursor) then ContainBackwardTarget(document, position) else position
      else if searchMode == "x" then
        if IsBackward(position, cursor) then ExcludeBackwardTarget(document, position) else ExcludeForwardTarget(position)
      else cursor
    else if searchMode == "x" then ExcludeBackwardTarget(document, position)
    else if searchMode == "X" then ExcludeForwardTarget(position)
    else if searchMode == "s" then ContainBackwardTarget(document, position)
    else cursor
  }

  /**
   * Where a visual-mode jump leaves the cursor relative to its target: an
   * exclude jump stops strictly short of the target on the side it was
   * reached from, a contain jump stops on the target's line at or past it,
   * and outside the visual modes the cursor lands on the target itself.
   */
  lemma JumpLanding(document: seq<char>, previousMode: Mode, bidirectional: bool, searchMode: string,
                    cursor: Position, position: Position)
    requires JumpDefined(document, previousMode, bidirectional, searchMode, cursor, position)
    ensures var q := CursorAfterJump(document, previousMode, bidirectional, searchMode, cursor, position);
            && (!IsVisualMode(previousMode) ==> q == position)
            && (IsVisualMode(previousMode) && searchMode == "x" && (!bidirectional || IsBackward(position, cursor))
                ==> IsBackward(position, q))
            && (IsVisualMode(previousMode) && ((bidirectional && searchMode == "x" && !IsBackward(position, cursor))
                                              || (!bidirectional && searchMode == "X"))
                ==> IsBackward(q, position) && q.line == position.line)
            && (IsVisualMode(previousMode) && searchMode == "s" && position.line < LineCount(document)
                && position.character < LineLength(document, position.line)
                ==> q.line == position.line && !IsBackward(position, q))
            && (IsVisualMode(previousMode) && searchMode != "s" && searchMode != "x" && (bidirectional || searchMode != "X")
                ==> q == cursor)
  {
  }

  /** The state of one Leap motion. */
  class Leap {
    const vimState: VimState
    var previousMode: Mode
    var markers: seq<Marker>
    var searchMode: string

    constructor (vimState: VimState)
      ensures this.vimState == vimState && previousMode == vimState.currentMode
      ensures markers == [] && searchMode == []
    {
      this.vimState := vimState;
      previousMode := vimState.currentMode;
      markers := [];
      searchMode := [];
    }

    /**
     * `createMarkers`: one fresh marker per match, in match order, then
     * `setMarkersName`. `createMarker` and `generateMarkerNames` are the
     * parameters `prefixOf` and `names`.
     */
    method CreateMarkers(matches: seq<LeapMatch>, prefixOf: LeapMatch -> string, names: nat -> seq<string>, bidirectional: bool)
      returns (ms: seq<Marker>)
      modifies this`markers
      ensures ms == markers && |ms| == |matches| && Distinct(ms)
      ensures forall i :: 0 <= i < |ms| ==> fresh(ms[i]) && !ms[i].disposed
      ensures forall i :: 0 <= i < |ms| ==>
                ms[i].position == matches[i].position && ms[i].searchString == matches[i].searchString
                && ms[i].direction == matches[i].direction && ms[i].prefix == prefixOf(matches[i])
      ensures forall i :: 0 <= i < |ms| && Relabelled(ms[i], bidirectional) ==>
                ms[i].labelText == ExpectedLabel(ms, ms[i], bidirectional, names)
      ensures forall i :: 0 <= i < |ms| && !Relabelled(ms[i], bidirectional) ==> ms[i].labelText == []
    {
      ms := [];
      for i := 0 to |matches|
        invariant |ms| == i && Distinct(ms)
        invariant forall j :: 0 <= j < i ==> fresh(ms[j]) && !ms[j].disposed && ms[j].labelText == []
        invariant forall j :: 0 <= j < i ==>
                    ms[j].position == matches[j].position && ms[j].searchString == matches[j].searchString
                    && ms[j].direction == matches[j].direction && ms[j].prefix == prefixOf(matches[j])
      {
        var m := new Marker(matches[i], prefixOf(matches[i]));
        ms := ms + [m];
      }
      markers := ms;
      SetMarkersName(names, bidirectional);
    }

    /**
     * `setMarkersName`: every marker that the bidirectional reorder keeps gets
     * the name of its place in the label order of its search string; a marker
     * the reorder drops keeps its label.
     */
    method SetMarkersName(names: nat -> seq<string>, bidirectional: bool)
      requires Distinct(markers)
      modifies markers`labelText
      ensures forall i :: 0 <= i < |markers| && Relabelled(markers[i], bidirectional) ==>
                markers[i].labelText == ExpectedLabel(markers, markers[i], bidirectional, names)
      ensures forall i :: 0 <= i < |markers| && !Relabelled(markers[i], bidirectional) ==>
                markers[i].labelText == old(markers[i].labelText)
    {
      var groups := GroupBySearchString(markers);
      forall i | 0 <= i < |markers| ensures markers[i].searchString in groups {
        GroupMembers(markers, markers[i].searchString);
      }
      LabelAll(markers, groups, names, bidirectional);
    }

    /** The `map.forEach` of `setMarkersName`: one round per search string, in any order of the keys. */
    static method LabelAll(ms: seq<Marker>, groups: map<string, seq<Marker>>, names: nat -> seq<string>, bidirectional: bool)
      requires Distinct(ms)
      requires forall s :: s in groups ==> groups[s] == Group(ms, s)
      requires forall i :: 0 <= i < |ms| ==> ms[i].searchString in groups
      modifies ms`labelText
      ensures forall i :: 0 <= i < |ms| && Relabelled(ms[i], bidirectional) ==>
                ms[i].labelText == ExpectedLabel(ms, ms[i], bidirectional, names)
      ensures forall i :: 0 <= i < |ms| && !Relabelled(ms[i], bidirectional) ==>
                ms[i].labelText == old(ms[i].labelText)
    {
      var rest := groups;
      while rest != map[]
        invariant forall s :: s in rest ==> rest[s] == Group(ms, s)
        invariant forall i :: 0 <= i < |ms| && ms[i].searchString !in rest && Relabelled(ms[i], bidirectional) ==>
                    ms[i].labelText == ExpectedLabel(ms, ms[i], bidirectional, names)
        invariant forall i :: 0 <= i < |ms| && (ms[i].searchString in rest || !Relabelled(ms[i], bidirectional)) ==>
                    ms[i].labelText == old(ms[i].labelText)
        decreases |rest.Keys|
      {
        var key :| key in rest;
        LabelSearchString(ms, key, rest[key], names, bidirectional);
        rest := rest - {key};
      }
    }

    /**
     * One round of `map.forEach` in `setMarkersName`: reorder the group of
     * `key` when bidirectional, then label it; no other label changes.
     */
    static method LabelSearchString(ms: seq<Marker>, key: string, group: seq<Marker>, names: nat -> seq<string>, bidirectional: bool)
      requires Distinct(ms) && group == Group(ms, key)
      modifies ms`labelText
      ensures forall i :: 0 <= i < |ms| && ms[i].searchString == key && Relabelled(ms[i], bidirectional) ==>
                ms[i].labelText == ExpectedLabel(ms, ms[i], bidirectional, names)
      ensures forall i :: 0 <= i < |ms| && (ms[i].searchString != key || !Relabelled(ms[i], bidirectional)) ==>
                ms[i].labelText == old(ms[i].labelText)
    {
      var order := group;
      if bidirectional {
        order := Reorder(group);
      }
      assert order == LabelOrder(ms, key, bidirectional);
      LabelOrderDistinct(ms, key, bidirectional);
      LabelGroup(order, names(|order|));
      forall i | 0 <= i < |ms| && ms[i].searchString == key && Relabelled(ms[i], bidirectional)
        ensures ms[i].labelText == ExpectedLabel(ms, ms[i], bidirectional, names)
      {
        InLabelOrder(ms, ms[i], bidirectional);
      }
    }

    /** The grouping `Map` of `setMarkersName`: each search string that occurs, mapped to its group. */
    static method GroupBySearchString(ms: seq<Marker>) returns (groups: map<string, seq<Marker>>)
      ensures forall s :: (if s in groups then groups[s] else []) == Group(ms, s)
    {
      groups := map[];
      for i := 0 to |ms|
        invariant forall s :: (if s in groups then groups[s] else []) == Group(ms[..i], s)
      {
        var key := ms[i].searchString;
        GroupStep(ms, i);
        if key !in groups {
          groups := groups[key := []];
        }
        groups := groups[key := groups[key] + [ms[i]]];
      }
      assert ms[..|ms|] == ms;
    }

    /** Writes `names[k]` (or `''`) as the label of the k-th marker of a group. */
    static method LabelGroup(group: seq<Marker>, names: seq<string>)
      requires Distinct(group)
      modifies group`labelText
      ensures forall k :: 0 <= k < |group| ==> group[k].labelText == NameAt(names, k)
    {
      for k := 0 to |group|
        invariant forall j :: 0 <= j < k ==> group[j].labelText == NameAt(names, j)
      {
        group[k].labelText := NameAt(names, k);
      }
    }

    /**
     * `reorder`: the backward-tagged and the forward-tagged markers of the
     * group, alternated by the `while` loops of `Alternate`.
     */
    static method Reorder(group: seq<Marker>) returns (result: seq<Marker>)
      ensures result == Reordered(group)
    {
      var backwardMatches := Tagged(group, Backward);
      var forwardMatches := Tagged(group, Forward);
      result := Alternate(backwardMatches, forwardMatches);
    }

    /** The three `while` loops of `reorder`: alternate while both sides last, then the rest of the longer. */
    static method Alternate<T>(backwardMatches: seq<T>, forwardMatches: seq<T>) returns (result: seq<T>)
      ensures result == Interleave(backwardMatches, forwardMatches)
    {
      result := [];
      var i := 0;
      var backwardMatchesLen := |backwardMatches|;
      var forwardMatchesLen := |forwardMatches|;
      while i < backwardMatchesLen && i < forwardMatchesLen
        invariant i <= backwardMatchesLen && i <= forwardMatchesLen
        invariant result + Interleave(backwardMatches[i..], forwardMatches[i..]) == Interleave(backwardMatches, forwardMatches)
      {
        InterleaveStep(backwardMatches, forwardMatches, i);
        assert result + [backwardMatches[i]] + [forwardMatches[i]] + Interleave(backwardMatches[i + 1..], forwardMatches[i + 1..])
            == result + ([backwardMatches[i], forwardMatches[i]] + Interleave(backwardMatches[i + 1..], forwardMatches[i + 1..]));
        result := result + [backwardMatches[i]];
        result := result + [forwardMatches[i]];
        i := i + 1;
      }
      if backwardMatchesLen > forwardMatchesLen {
        assert Interleave(backwardMatches[i..], forwardMatches[i..]) == backwardMatches[i..];
        result := PushRest(result, backwardMatches, i);
      } else if forwardMatchesLen > backwardMatchesLen {
        assert Interleave(backwardMatches[i..], forwardMatches[i..]) == forwardMatches[i..];
        result := PushRest(result, forwardMatches, i);
      } else {
        assert backwardMatches[i..] == [] && forwardMatches[i..] == [];
      }
    }

    /** The second and third `while` loops of `reorder`: push the rest of one side, from index `i` on, in order. */
    static method PushRest<T>(result: seq<T>, matches: seq<T>, i: nat) returns (r: seq<T>)
      requires i <= |matches|
      ensures r == result + matches[i..]
    {
      r := result;
      var k := i;
      while k < |matches|
        invariant i <= k <= |matches|
        invariant r + matches[k..] == result + matches[i..]
      {
        assert matches[k..] == [matches[k]] + matches[k + 1..];
        assert r + matches[k..] == (r + [matches[k]]) + matches[k + 1..];
        r := r + [matches[k]];
        k := k + 1;
      }
    }

    /** `findMarkerByName`: the first marker labelled `name`, or none. */
    function FindMarkerByName(name: string): (r: Option<Marker>)
      reads this, markers
      ensures r.Some? ==> exists i :: 0 <= i < |markers| && markers[i] == r.value && r.value.labelText == name
                                      && forall j :: 0 <= j < i ==> markers[j].labelText != name
      ensures r.None? <==> forall i :: 0 <= i < |markers| ==> markers[i].labelText != name
    {
      FindByName(markers, name)
    }

    /** `findMarkersBySearchString`: the markers of one search string, in list order; the group `setMarkersName` labels. */
    function FindMarkersBySearchString(searchString: string): (r: seq<Marker>)
      reads this
      ensures r == Group(markers, searchString)
      ensures forall i :: 0 <= i < |r| ==> r[i] in markers && r[i].searchString == searchString
      ensures forall i :: 0 <= i < |markers| && markers[i].searchString == searchString ==> markers[i] in r
      ensures IsSubsequence(r, markers)
    {
      GroupIsFilter(markers, searchString);
      Filter(markers, SearchIs(searchString))
    }

    /** `isPrefixOfMarker`: some marker has `character` as its prefix. */
    function IsPrefixOfMarker(character: string): (r: bool)
      reads this
      ensures r <==> exists i :: 0 <= i < |markers| && markers[i].prefix == character
      ensures r <==> Filter(markers, PrefixIs(character)) != []
    {
      var found := Find(markers, PrefixIs(character));
      assert found.Some? ==> found.value in Filter(markers, PrefixIs(character));
      found.Some?
    }

    /**
     * The `map`-then-`filter` of `keepMarkersByPrefix` and
     * `keepMarkersBySearchString`: dispose every marker that fails `keep`, then
     * keep, in order, the ones that pass.
     */
    method KeepOnly(keep: Marker -> bool)
      modifies this`markers, markers`disposed
      ensures markers == Filter(old(markers), keep)
      ensures forall i :: 0 <= i < |old(markers)| && !keep(old(markers)[i]) ==> old(markers)[i].disposed
      ensures forall i :: 0 <= i < |old(markers)| && keep(old(markers)[i]) ==>
                old(markers)[i].disposed == old(markers[i].disposed)
    {
      var ms := markers;
      for i := 0 to |ms|
        invariant forall j :: 0 <= j < i && !keep(ms[j]) ==> ms[j].disposed
        invariant forall j :: 0 <= j < |ms| && keep(ms[j]) ==> ms[j].disposed == old(ms[j].disposed)
      {
        if !keep(ms[i]) {
          ms[i].Dispose();
        }
      }
      markers := Filter(ms, keep);
    }

    /** `keepMarkersByPrefix`: only the markers with that prefix stay; the others are disposed. */
    method KeepMarkersByPrefix(prefix: string)
      modifies this`markers, markers`disposed
      ensures markers == Filter(old(markers), PrefixIs(prefix))
      ensures forall i :: 0 <= i < |old(markers)| && old(markers)[i].prefix != prefix ==> old(markers)[i].disposed
      ensures forall i :: 0 <= i < |old(markers)| && old(markers)[i].prefix == prefix ==>
                old(markers)[i].disposed == old(markers[i].disposed)
    {
      KeepOnly(PrefixIs(prefix));
    }

    /** `keepMarkersBySearchString`: only the markers of that search string stay; the others are disposed. */
    method KeepMarkersBySearchString(searchString: string)
      modifies this`markers, markers`disposed
      ensures markers == Group(old(markers), searchString)
      ensures forall i :: 0 <= i < |old(markers)| && old(markers)[i].searchString != searchString ==> old(markers)[i].disposed
      ensures forall i :: 0 <= i < |old(markers)| && old(markers)[i].searchString == searchString ==>
                old(markers)[i].disposed == old(markers[i].disposed)
    {
      GroupIsFilter(markers, searchString);
      KeepOnly(SearchIs(searchString));
    }

    /** `cleanupMarkers`: nothing to do on an empty list; otherwise dispose every marker and empty the list. */
    method CleanupMarkers()
      modifies this`markers, markers`disposed
      ensures AllDisposed(old(markers))
      ensures markers == []
    {
      if |markers| == 0 {
        return;
      }
      var ms := markers;
      for i := 0 to |ms|
        invariant forall j :: 0 <= j < i ==> ms[j].disposed
      {
        ms[i].Dispose();
      }
      markers := [];
    }

    /** `showMarkers`: show every marker of the list. */
    method ShowMarkers()
      modifies markers`shown
      ensures forall i :: 0 <= i < |markers| ==> markers[i].shown
    {
      var ms := markers;
      for i := 0 to |ms|
        invariant forall j :: 0 <= j < i ==> ms[j].shown
      {
        ms[i].Show();
      }
    }

    /**
     * `changeCursorStopPosition`: the cursor stop becomes the landing for the
     * target `position`, chosen by the mode the motion started in, the
     * bidirectional setting and the search mode. The mode is this motion's
     * `previousMode`.
     */
    method ChangeCursorStopPosition(position: Position, bidirectional: bool)
      requires JumpDefined(vimState.document, previousMode, bidirectional, searchMode, vimState.cursorStopPosition, position)
      modifies vimState`cursorStopPosition
      ensures vimState.cursorStopPosition
              == CursorAfterJump(vimState.document, previousMode, bidirectional, searchMode, old(vimState.cursorStopPosition), position)
    {
      var isVisualModel := previousMode == Visual || previousMode == VisualLine || previousMode == VisualBlock;
      if isVisualModel {
        if bidirectional {
          if searchMode == "s" {
            if IsBackward(position, vimState.cursorStopPosition) {
              ContainMarkerBackwardJump(position);
            } else {
              ContainMarkerForwardJump(position);
            }
          } else if searchMode == "x" {
            if IsBackward(position, vimState.cursorStopPosition) {
              ExcludeMarkerBackwardJump(position);
            } else {
              ExcludeMarkerForwardJump(position);
            }
          }
        } else {
          if searchMode == "x" {
            ExcludeMarkerBackwardJump(position);
          } else if searchMode == "X" {
            ExcludeMarkerForwardJump(position);
          } else if searchMode == "s" {
            ContainMarkerBackwardJump(position);
          }
        }
      } else {
        vimState.cursorStopPosition := position;
      }
    }

    /** `containMarkerBackwardJump`. */
    method ContainMarkerBackwardJump(position: Position)
      requires ContainBackwardDefined(vimState.document, position)
      modifies vimState`cursorStopPosition
      ensures vimState.cursorStopPosition == ContainBackwardTarget(vimState.document, position)
    {
      var maxCharacter := LineLength(vimState.document, position.line) - 1;
      vimState.cursorStopPosition := Position(position.line, Min(position.character + 1, maxCharacter));
    }

    /** `containMarkerForwardJump`: the target itself. */
    method ContainMarkerForwardJump(position: Position)
      modifies vimState`cursorStopPosition
      ensures vimState.cursorStopPosition == position
    {
      vimState.cursorStopPosition := position;
    }

    /** `excludeMarkerBackwardJump`. */
    method ExcludeMarkerBackwardJump(position: Position)
      requires ExcludeBackwardDefined(vimState.document, position)
      modifies vimState`cursorStopPosition
      ensures vimState.cursorStopPosition == ExcludeBackwardTarget(vimState.document, position)
    {
      var line, character;
      var isFirstCharacter := position.character == 0;
      if isFirstCharacter {
        line := position.line - 1;
        character := LineLength(vimState.document, position.line - 1);
      } else {
        line := position.line;
        character := position.character - 1;
      }
      vimState.cursorStopPosition := Position(line, character);
    }

    /** `excludeMarkerForwardJump`. */
    method ExcludeMarkerForwardJump(position: Position)
      modifies vimState`cursorStopPosition
      ensures vimState.cursorStopPosition == ExcludeForwardTarget(position)
    {
      vimState.cursorStopPosition := Position(position.line, position.character + 2);
    }
  }
}
